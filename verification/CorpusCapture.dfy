/**
 * Requests for a corpus root, the Git disposition of a path, and the capture of a declared
 * (non-Git) root: why an accepted request can never be refused by the later guards.
 */
module CorpusCapture {
  import opened Wrappers
  import opened Text
  import opened CorpusScan

  // --- the ancestor index -------------------------------------------------------------------

  function Ancestors(path: string): set<string> {
    var parts := Split(path, '/');
    set i | 1 <= i < |parts| :: Join(parts[..i], '/')
  }

  // A string is an ancestor exactly when the path continues it with a slash.
  lemma AncestorIsPrefix(path: string, d: string)
    ensures d in Ancestors(path) <==> StartsWith(path, d + "/")
  {
    var parts := Split(path, '/');
    JoinSplit(path, '/');
    if d in Ancestors(path) {
      var i :| 1 <= i < |parts| && d == Join(parts[..i], '/');
      JoinAppend(parts[..i], parts[i..], '/');
      assert parts == parts[..i] + parts[i..];
      assert path == d + "/" + Join(parts[i..], '/');
    }
    if StartsWith(path, d + "/") {
      var rest := path[|d| + 1..];
      assert path == d + ['/'] + rest;
      SplitAppend(d, rest, '/');
      var i := |Split(d, '/')|;
      assert parts[..i] == Split(d, '/');
      JoinSplit(d, '/');
    }
  }

  // Some path lies below the directory.
  ghost predicate Holds(paths: set<string>, directory: string) {
    exists p :: p in paths && StartsWith(p, directory + "/")
  }

  // _ancestor_directories
  method AncestorDirectories(paths: set<string>) returns (directories: set<string>)
    ensures forall d :: d in directories <==> d != "" && Holds(paths, d)
  {
    directories := {};
    var left := paths;
    while left != {}
      invariant left <= paths
      invariant forall d :: d in directories <==> exists p :: p in paths - left && d in Ancestors(p)
    {
      var path :| path in left;
      left := left - {path};
      var parts := Split(path, '/')[..|Split(path, '/')| - 1];
      ghost var before := directories;
      for index := 1 to |parts| + 1
        invariant directories == before + set i | 1 <= i < index :: Join(parts[..i], '/')
      {
        directories := directories + {Join(parts[..index], '/')};
      }
      assert forall i :: 1 <= i <= |parts| ==> parts[..i] == Split(path, '/')[..i];
      assert directories == before + Ancestors(path);
    }
    directories := directories - {""};
    forall d ensures d in directories <==> d != "" && Holds(paths, d) {
      if d in directories {
        var p :| p in paths && d in Ancestors(p);
        AncestorIsPrefix(p, d);
      }
      if d != "" && Holds(paths, d) {
        var p :| p in paths && StartsWith(p, d + "/");
        AncestorIsPrefix(p, d);
      }
    }
  }

  datatype Disposition = Tracked | Untracked | Ignored

  // What _git_disposition_reader closes over.
  datatype DispositionReader = DispositionReader(
    tracked: set<string>, untracked: set<string>, trackedDirectories: set<string>, untrackedDirectories: set<string>) {
    function For(relative: string): Disposition {
      if relative in tracked || relative in trackedDirectories then Tracked
      else if relative in untracked || relative in untrackedDirectories then Untracked
      else Ignored
    }
  }

  // The path is one of the set, or a directory above one of them.
  ghost predicate Governs(paths: set<string>, relative: string) { relative in paths || Holds(paths, relative) }

  // The two Git sets and their descendants dictate the disposition, tracked first.
  method GitDispositionReader(tracked: set<string>, untracked: set<string>) returns (reader: DispositionReader)
    ensures forall relative :: relative != "" ==>
      (reader.For(relative) == Tracked <==> Governs(tracked, relative))
      && (reader.For(relative) == Untracked <==> !Governs(tracked, relative) && Governs(untracked, relative))
      && (reader.For(relative) == Ignored <==> !Governs(tracked, relative) && !Governs(untracked, relative))
  {
    var trackedDirectories := AncestorDirectories(tracked);
    var untrackedDirectories := AncestorDirectories(untracked);
    reader := DispositionReader(tracked, untracked, trackedDirectories, untrackedDirectories);
  }

  // --- requests -----------------------------------------------------------------------------

  datatype Request = Request(hashed: seq<string>, metadataRoots: seq<string>, configs: seq<string>)

  predicate Normalized(path: string) {
    && path != "" && path[0] != '/'
    && forall i :: 0 <= i < |Split(path, '/')| ==> Component(Split(path, '/')[i])
  }

  // _validate_request_paths
  method ValidateRequestPaths(paths: seq<string>) returns (ok: bool)
    ensures ok <==> PathsAccepted(paths)
  {
    var seen: set<string> := {};
    for k := 0 to |paths|
      invariant forall n :: n in seen <==> exists i :: 0 <= i < k && paths[i] == n
      invariant Distinct(paths[..k]) && forall i :: 0 <= i < k ==> Normalized(paths[i])
    {
      if !Normalized(paths[k]) || paths[k] in seen { return false; }
      seen := seen + {paths[k]};
    }
    assert paths[..|paths|] == paths;
    return true;
  }

  predicate Overlap(a: string, b: string) { a == b || StartsWith(a, b + "/") || StartsWith(b, a + "/") }

  predicate Covers(root: string, path: string) { path == root || StartsWith(path, root + "/") }

  // RootManifestRequest.__post_init__ for a non-Git root.
  predicate Accepted(request: Request) {
    && PathsAccepted(request.hashed) && PathsAccepted(request.metadataRoots) && PathsAccepted(request.configs)
    && Distinct(request.hashed + request.configs)
    && Apart(request.metadataRoots)
    && (forall p, r :: p in request.hashed + request.configs && r in request.metadataRoots ==> !Covers(r, p))
  }

  predicate PathsAccepted(paths: seq<string>) {
    Distinct(paths) && forall i :: 0 <= i < |paths| ==> Normalized(paths[i])
  }

  // --- what a request may declare -----------------------------------------------------------

  ghost predicate Within(s: string, needle: string) { exists a, b :: Surrounds(s, a, needle, b) }

  ghost predicate Surrounds(s: string, a: string, needle: string, b: string) { s == a + needle + b }

  // Between slashes, the path has no two slashes in a row and neither of the dot names.
  ghost predicate Canonical(path: string) {
    var s := "/" + path + "/";
    !Within(s, "//") && !Within(s, "/./") && !Within(s, "/../")
  }

  // The components of a path between slashes: its own, and an empty one on either side.
  lemma SlashedParts(path: string)
    ensures Split("/" + path + "/", '/') == [""] + Split(path, '/') + [""]
    ensures Join([""] + Split(path, '/') + [""], '/') == "/" + path + "/"
  {
    SplitAppend("", path, '/');
    SplitAppend("/" + path, "", '/');
    assert "/" + path == "" + ['/'] + path && "/" + path + "/" == "/" + path + ['/'] + "";
    JoinSplit("/" + path + "/", '/');
  }

  lemma JoinAround(a: seq<string>, part: string, b: seq<string>)
    requires |a| > 0 && |b| > 0
    ensures Join(a + ([part] + b), '/') == Join(a, '/') + ("/" + part + "/") + Join(b, '/')
  {
    JoinAppend(a, [part] + b, '/');
    JoinAppend([part], b, '/');
    assert Join([part], '/') == part;
    Regroup(Join(a, '/'), part, Join(b, '/'));
  }

  lemma Regroup(x: string, part: string, y: string)
    ensures x + ['/'] + (part + ['/'] + y) == x + ("/" + part + "/") + y
  {
  }

  lemma SplitAround(a: string, part: string, b: string)
    requires Free(part, '/')
    ensures Split(a + ("/" + part + "/") + b, '/') == Split(a, '/') + ([part] + Split(b, '/'))
  {
    SplitOfFree(part, '/');
    SplitAppend(a, part + ['/'] + b, '/');
    SplitAppend(part, b, '/');
    Regroup(a, part, b);
  }

  lemma ComponentIsWithin(path: string, i: nat)
    requires i < |Split(path, '/')|
    ensures Within("/" + path + "/", "/" + Split(path, '/')[i] + "/")
  {
    var parts, whole := Split(path, '/'), [""] + Split(path, '/') + [""];
    var part := parts[i];
    SlashedParts(path);
    var a, b := whole[..i + 1], whole[i + 2..];
    assert whole == a + ([part] + b);
    JoinAround(a, part, b);
    assert Surrounds("/" + path + "/", Join(a, '/'), "/" + part + "/", Join(b, '/'));
  }

  lemma WithinIsComponent(path: string, a: string, part: string, b: string)
    requires Surrounds("/" + path + "/", a, "/" + part + "/", b) && Free(part, '/')
    ensures part in Split(path, '/')
  {
    var parts, whole := Split(path, '/'), [""] + Split(path, '/') + [""];
    SlashedParts(path);
    SplitAround(a, part, b);
    var k := |Split(a, '/')|;
    assert whole == Split(a, '/') + ([part] + Split(b, '/'));
    assert whole[k] == part && whole[k] == parts[k - 1];
  }

  lemma PartsWithin(path: string, part: string, marked: string)
    requires Free(part, '/') && marked == "/" + part + "/"
    ensures Within("/" + path + "/", marked) <==> part in Split(path, '/')
  {
    if a, b :| Surrounds("/" + path + "/", a, marked, b) { WithinIsComponent(path, a, part, b); }
    if part in Split(path, '/') {
      var i :| 0 <= i < |Split(path, '/')| && Split(path, '/')[i] == part;
      ComponentIsWithin(path, i);
    }
  }

  lemma CanonicalIs(path: string)
    ensures Normalized(path) <==> Canonical(path)
  {
    var parts := Split(path, '/');
    PartsWithin(path, "", "//");
    PartsWithin(path, ".", "/./");
    PartsWithin(path, "..", "/../");
    SplitFree(path, '/');
    assert path != "" && path[0] == '/' ==> parts[0] == "";
    assert forall i :: 0 <= i < |parts| ==> parts[i] in parts;
  }

  // A root covers a path exactly when its components come first in it.
  lemma CoversIs(root: string, path: string)
    ensures Covers(root, path) <==> Split(root, '/') <= Split(path, '/')
  {
    var above, parts := Split(root, '/'), Split(path, '/');
    JoinSplit(root, '/');
    JoinSplit(path, '/');
    if StartsWith(path, root + "/") { BelowIsLonger(root, path); }
    if above <= parts && above != parts {
      JoinAppend(above, parts[|above|..], '/');
      assert parts == above + parts[|above|..];
      assert path[..|root| + 1] == root + "/";
    }
  }

  lemma BelowIsLonger(root: string, path: string)
    requires StartsWith(path, root + "/")
    ensures Split(root, '/') <= Split(path, '/')
  {
    var rest := path[|root| + 1..];
    assert path == root + ['/'] + rest;
    SplitAppend(root, rest, '/');
  }

  // Neither path lies at or below the other.
  predicate Separate(a: string, b: string) { !(Split(a, '/') <= Split(b, '/')) && !(Split(b, '/') <= Split(a, '/')) }

  lemma SeparateIs(a: string, b: string)
    ensures Separate(a, b) <==> !Overlap(a, b)
  {
    CoversIs(a, b);
    CoversIs(b, a);
  }

  lemma DistinctParts(a: seq<string>, b: seq<string>)
    requires Distinct(a + b)
    ensures Distinct(a) && Distinct(b)
  {
    assert forall i :: 0 <= i < |a| ==> (a + b)[i] == a[i];
    assert forall i :: 0 <= i < |b| ==> (a + b)[|a| + i] == b[i];
  }

  lemma PathsAcceptedIs(paths: seq<string>)
    ensures PathsAccepted(paths) <==> Distinct(paths) && forall i :: 0 <= i < |paths| ==> Canonical(paths[i])
  {
    forall i | 0 <= i < |paths| ensures Normalized(paths[i]) <==> Canonical(paths[i]) { CanonicalIs(paths[i]); }
  }

  // Every pair of metadata roots is separate, and no hashed path is at or below one.
  ghost predicate RootsApart(roots: seq<string>, hashed: seq<string>) {
    && (forall i, j :: 0 <= i < j < |roots| ==> Separate(roots[i], roots[j]))
    && (forall p, r :: p in hashed && r in roots ==> !(Split(r, '/') <= Split(p, '/')))
  }

  lemma RootsApartIs(roots: seq<string>, hashed: seq<string>)
    ensures RootsApart(roots, hashed) <==>
            Apart(roots) && forall p, r :: p in hashed && r in roots ==> !Covers(r, p)
    ensures RootsApart(roots, hashed) ==> Distinct(roots)
  {
    forall i, j | 0 <= i < j < |roots| ensures Separate(roots[i], roots[j]) <==> !Overlap(roots[i], roots[j]) {
      SeparateIs(roots[i], roots[j]);
    }
    forall p, r | p in hashed && r in roots ensures Covers(r, p) <==> Split(r, '/') <= Split(p, '/') { CoversIs(r, p); }
  }

  /**
   * Which requests are accepted, in terms of path components: every path is canonical, no hashed
   * path is declared twice, and no metadata root is at, above or below another or above a hashed
   * path.
   */
  lemma AcceptedExactlyWhen(request: Request)
    ensures Accepted(request) <==>
            && (forall i :: 0 <= i < |request.hashed| ==> Canonical(request.hashed[i]))
            && (forall i :: 0 <= i < |request.configs| ==> Canonical(request.configs[i]))
            && (forall i :: 0 <= i < |request.metadataRoots| ==> Canonical(request.metadataRoots[i]))
            && Distinct(request.hashed + request.configs)
            && RootsApart(request.metadataRoots, request.hashed + request.configs)
  {
    PathsAcceptedIs(request.hashed);
    PathsAcceptedIs(request.configs);
    PathsAcceptedIs(request.metadataRoots);
    RootsApartIs(request.metadataRoots, request.hashed + request.configs);
    if Distinct(request.hashed + request.configs) { DistinctParts(request.hashed, request.configs); }
  }

  // --- below a metadata root ----------------------------------------------------------------

  const NO_RULES := Rules({}, {})

  lemma {:induction false} AtAppend(children: seq<Entry>, path: seq<string>, name: string)
    requires At(children, path).Some? && At(children, path).value.Folder?
    ensures var below := At(children, path).value.children;
            At(children, path + [name]) == At(below, [name])
    decreases |path|
  {
    var node := children[Find(children, path[0])].node;
    assert (path + [name])[1..] == path[1..] + [name];
    if |path| > 1 {
      AtAppend(node.children, path[1..], name);
    } else {
      assert path[1..] + [name] == [name];
    }
  }

  // The walk reopens each directory from the root by its path string.
  lemma PathStringReopens(tree: seq<Entry>, relative: string, children: seq<Entry>, name: string)
    requires At(tree, Split(relative, '/')) == Some(Folder(children))
    requires Free(name, '/') && Find(children, name) < |children|
    ensures At(tree, Split(relative + "/" + name, '/')) == Some(children[Find(children, name)].node)
  {
    SplitAppend(relative, name, '/');
    SplitOfFree(name, '/');
    assert relative + "/" + name == relative + ['/'] + name;
    AtAppend(tree, Split(relative, '/'), name);
  }

  // _walk_metadata_root
  method WalkMetadataRoot(tree: seq<Entry>, relative: string, ghost children: seq<Entry>) returns (records: seq<Record>)
    requires At(tree, Split(relative, '/')) == Some(Folder(children)) && ValidTree(children)
    ensures records == ScanNames(children, SortedNames(children), relative + "/", NO_RULES).records
    decreases children, 1
  {
    var entries := At(tree, Split(relative, '/')).value.children;
    var names, prefix := SortedNames(entries), relative + "/";
    SortedNamesHold(entries);
    records := [];
    assert names[0..] == names;
    for k := 0 to |names|
      invariant ScanNames(entries, names, prefix, NO_RULES).records ==
              records + ScanNames(entries, names[k..], prefix, NO_RULES).records
    {
      assert names[k..][0] == names[k] && names[k..][1..] == names[k + 1..];
      assert names[k] in names;
      var found := VisitMetadata(tree, relative, entries, names[k]);
      records := records + found;
    }
  }

  method VisitMetadata(tree: seq<Entry>, relative: string, entries: seq<Entry>, name: string)
    returns (records: seq<Record>)
    requires At(tree, Split(relative, '/')) == Some(Folder(entries)) && ValidTree(entries)
    requires Find(entries, name) < |entries|
    ensures records == ScanEntry(entries, name, relative + "/", NO_RULES).records
    decreases entries, 0
  {
    var path, node := relative + "/" + name, entries[Find(entries, name)].node;
    records := [Record(path, KindOf(node))];
    if node.Folder? {
      PathStringReopens(tree, relative, entries, name);
      var below := WalkMetadataRoot(tree, path, node.children);
      records := records + below;
    }
  }

  // --- the capture --------------------------------------------------------------------------

  predicate IsFolder(tree: seq<Entry>, root: string) {
    var node := At(tree, Split(root, '/'));
    node.Some? && node.value.Folder?
  }

  function Below(tree: seq<Entry>, root: string): seq<Entry>
    requires IsFolder(tree, root)
  {
    At(tree, Split(root, '/')).value.children
  }

  function RootRecords(tree: seq<Entry>, root: string): seq<Record>
    requires IsFolder(tree, root)
  {
    ScanNames(Below(tree, root), SortedNames(Below(tree, root)), root + "/", NO_RULES).records
  }

  predicate AllFolders(tree: seq<Entry>, roots: seq<string>) {
    forall i :: 0 <= i < |roots| ==> IsFolder(tree, roots[i])
  }

  function MetadataRecords(tree: seq<Entry>, roots: seq<string>): seq<Record>
    requires AllFolders(tree, roots)
  {
    if |roots| == 0 then []
    else MetadataRecords(tree, roots[..|roots| - 1]) + RootRecords(tree, roots[|roots| - 1])
  }

  lemma {:induction false} FoldersAreValid(children: seq<Entry>, path: seq<string>)
    requires ValidTree(children) && At(children, path).Some? && At(children, path).value.Folder?
    ensures ValidTree(At(children, path).value.children)
    decreases |path|
  {
    if |path| > 1 { FoldersAreValid(children[Find(children, path[0])].node.children, path[1..]); }
  }

  // Two roots with a common string below them overlap.
  lemma CommonPathOverlaps(a: string, b: string, x: string, y: string)
    requires a + "/" + x == b + "/" + y
    ensures Overlap(a, b)
  {
    var s := a + "/" + x;
    if |a| < |b| { ShorterIsPrefix(a, b, s); }
    else if |b| < |a| { ShorterIsPrefix(b, a, s); }
    else { assert a == s[..|a|] == b; }
  }

  lemma ShorterIsPrefix(a: string, b: string, s: string)
    requires |a| < |b| && StartsWith(s, a + "/") && StartsWith(s, b + "/")
    ensures StartsWith(b, a + "/")
  {
    assert b == (b + "/")[..|b|] == s[..|b|];
    assert b[..|a| + 1] == s[..|a| + 1];
  }

  lemma RootRecordHasPath(tree: seq<Entry>, root: string, r: Record) returns (rest: string)
    requires IsFolder(tree, root) && r in RootRecords(tree, root)
    ensures r.path == root + "/" + rest
  {
    var path := RecordHasPath(Below(tree, root), SortedNames(Below(tree, root)), root + "/", NO_RULES, r);
    rest := Join(path, '/');
  }

  // Where a metadata record comes from.
  lemma {:induction false} MetadataHasRoot(tree: seq<Entry>, roots: seq<string>, r: Record) returns (k: nat)
    requires AllFolders(tree, roots) && r in MetadataRecords(tree, roots)
    ensures k < |roots| && r in RootRecords(tree, roots[k])
  {
    var n := |roots| - 1;
    if r in RootRecords(tree, roots[n]) { k := n; } else { k := MetadataHasRoot(tree, roots[..n], r); }
  }

  lemma {:induction false} MetadataHolds(tree: seq<Entry>, roots: seq<string>, k: nat, r: Record)
    requires AllFolders(tree, roots) && k < |roots| && r in RootRecords(tree, roots[k])
    ensures r in MetadataRecords(tree, roots)
    decreases |roots|
  {
    if k < |roots| - 1 { MetadataHolds(tree, roots[..|roots| - 1], k, r); }
  }

  predicate Apart(roots: seq<string>) { forall i, j :: 0 <= i < j < |roots| ==> !Overlap(roots[i], roots[j]) }

  lemma {:induction false} MetadataIsDistinct(tree: seq<Entry>, roots: seq<string>)
    requires ValidTree(tree) && AllFolders(tree, roots) && Apart(roots)
    ensures DistinctBy(MetadataRecords(tree, roots), PathOf)
  {
    if |roots| > 0 {
      var n := |roots| - 1;
      MetadataIsDistinct(tree, roots[..n]);
      RootIsDistinct(tree, roots[n]);
      var first, last := MetadataRecords(tree, roots[..n]), RootRecords(tree, roots[n]);
      forall i, j | 0 <= i < |first| && 0 <= j < |last| ensures PathOf(first[i]) != PathOf(last[j]) {
        var k := MetadataHasRoot(tree, roots[..n], first[i]);
        var x := RootRecordHasPath(tree, roots[k], first[i]);
        var y := RootRecordHasPath(tree, roots[n], last[j]);
        if first[i].path == last[j].path { CommonPathOverlaps(roots[k], roots[n], x, y); }
      }
      DistinctAppend(first, last, PathOf);
    }
  }

  lemma RootIsDistinct(tree: seq<Entry>, root: string)
    requires ValidTree(tree) && IsFolder(tree, root)
    ensures DistinctBy(RootRecords(tree, root), PathOf)
  {
    var below := Below(tree, root);
    FoldersAreValid(tree, Split(root, '/'));
    SortedNamesDistinct(below);
    RecordsAreDistinct(below, SortedNames(below), root + "/", NO_RULES);
  }

  // No hashed path lies below a metadata root.
  lemma HashedApart(tree: seq<Entry>, request: Request, r: Record)
    requires Accepted(request) && AllFolders(tree, request.metadataRoots)
    requires r in MetadataRecords(tree, request.metadataRoots)
    ensures r.path !in request.hashed + request.configs
  {
    var k := MetadataHasRoot(tree, request.metadataRoots, r);
    var root := request.metadataRoots[k];
    var rest := RootRecordHasPath(tree, root, r);
    assert StartsWith(r.path, root + "/");
    assert root in request.metadataRoots;
  }

  datatype Capture =
    | NothingDeclared | Unhashable | RootNotFolder              // refusals a capture can meet
    | DuplicateMetadata | RecordsOverlap | ManifestRefused      // guards that can never fire
    | Manifest(inventory: seq<string>, hashed: seq<Record>, metadata: seq<Record>)

  // The ordering, uniqueness and coverage checks of RootManifest.
  predicate ManifestAccepts(inventory: seq<string>, hashed: seq<Record>, metadata: seq<Record>) {
    && (forall i :: 0 <= i < |inventory| ==> inventory[i] != "" && inventory[i][0] != '/')
    && Sorted(inventory) && Distinct(inventory)
    && SortedBy(hashed, PathOf) && DistinctBy(hashed, PathOf)
    && SortedBy(metadata, PathOf) && DistinctBy(metadata, PathOf)
    && DistinctBy(hashed + metadata, PathOf)
    && (forall p :: p in inventory ==> p in PathSet(hashed))
  }

  function Paths(records: seq<Record>): seq<string> {
    seq(|records|, i requires 0 <= i < |records| => records[i].path)
  }

  lemma PathsAscend(records: seq<Record>)
    ensures Ascending(Paths(records)) <==> SortedBy(records, PathOf) && DistinctBy(records, PathOf)
  {
    var paths := Paths(records);
    AscendingIs(paths);
    assert forall i :: 0 <= i < |records| ==> paths[i] == PathOf(records[i]);
  }

  // What the manifest demands: strictly ascending lists, no path both hashed and not, relative
  // inventory paths, and each of those hashed.
  lemma ManifestAcceptsExactly(inventory: seq<string>, hashed: seq<Record>, metadata: seq<Record>)
    ensures ManifestAccepts(inventory, hashed, metadata) <==>
            && Ascending(inventory) && Ascending(Paths(hashed)) && Ascending(Paths(metadata))
            && (forall i, j :: 0 <= i < |hashed| && 0 <= j < |metadata| ==> hashed[i].path != metadata[j].path)
            && (forall i :: 0 <= i < |inventory| ==> inventory[i] != "" && !StartsWith(inventory[i], "/"))
            && (forall p :: p in inventory ==> p in Paths(hashed))
  {
    AscendingIs(inventory);
    PathsAscend(hashed);
    PathsAscend(metadata);
    forall p ensures p in PathSet(hashed) <==> p in Paths(hashed) { PathIsListed(hashed, p); }
    forall i | 0 <= i < |inventory| && inventory[i] != ""
      ensures StartsWith(inventory[i], "/") <==> inventory[i][0] == '/'
    {
      assert inventory[i][..1] == [inventory[i][0]];
    }
    BothDistinct(hashed, metadata);
  }

  lemma PathIsListed(records: seq<Record>, p: string)
    ensures p in PathSet(records) <==> p in Paths(records)
  {
    PathSetHolds(records, p);
    assert forall i :: 0 <= i < |records| ==> Paths(records)[i] == records[i].path;
  }

  lemma BothDistinct(a: seq<Record>, b: seq<Record>)
    ensures DistinctBy(a + b, PathOf) <==>
            && DistinctBy(a, PathOf) && DistinctBy(b, PathOf)
            && (forall i, j :: 0 <= i < |a| && 0 <= j < |b| ==> a[i].path != b[j].path)
  {
    var both := a + b;
    assert forall i :: 0 <= i < |a| ==> both[i] == a[i];
    assert forall j :: 0 <= j < |b| ==> both[|a| + j] == b[j];
    if DistinctBy(both, PathOf) {
      forall i, j | 0 <= i < |a| && 0 <= j < |b| ensures a[i].path != b[j].path {
        assert PathOf(both[i]) != PathOf(both[|a| + j]);
      }
      forall i, j | 0 <= i < j < |a| ensures PathOf(a[i]) != PathOf(a[j]) {
        assert PathOf(both[i]) != PathOf(both[j]);
      }
      forall i, j | 0 <= i < j < |b| ensures PathOf(b[i]) != PathOf(b[j]) {
        assert PathOf(both[|a| + i]) != PathOf(both[|a| + j]);
      }
    }
  }

  function FileRecords(paths: seq<string>): seq<Record> {
    seq(|paths|, i requires 0 <= i < |paths| => Record(paths[i], FileKind))
  }

  // What an accepted request captures, before the guards look at it.
  function Hashed(request: Request): seq<Record> { FileRecords(Sort(request.hashed + request.configs)) }

  function Metadata(tree: seq<Entry>, request: Request): seq<Record>
    requires AllFolders(tree, request.metadataRoots)
  {
    SortBy(MetadataRecords(tree, request.metadataRoots), PathOf)
  }

  lemma HashedIsOrdered(request: Request)
    requires Accepted(request)
    ensures var paths := Sort(request.hashed + request.configs);
            && Sorted(paths) && Distinct(paths)
            && (forall p :: p in paths <==> p in request.hashed + request.configs)
            && (forall i :: 0 <= i < |paths| ==> Normalized(paths[i]))
    ensures SortedBy(Hashed(request), PathOf) && DistinctBy(Hashed(request), PathOf)
    ensures forall p :: p in Sort(request.hashed + request.configs) ==> p in PathSet(Hashed(request))
  {
    var paths := Sort(request.hashed + request.configs);
    SortDistinct(request.hashed + request.configs);
    forall i | 0 <= i < |paths| ensures Normalized(paths[i]) {
      assert paths[i] in paths;
      assert paths[i] in request.hashed || paths[i] in request.configs;
    }
    forall p | p in paths ensures p in PathSet(Hashed(request)) {
      var i :| 0 <= i < |paths| && paths[i] == p;
      assert Hashed(request)[i].path == p;
      PathSetHolds(Hashed(request), p);
    }
  }

  lemma HashedAre(request: Request, r: Record)
    requires Accepted(request)
    ensures r in Hashed(request) <==> r.kind == FileKind && (r.path in request.hashed || r.path in request.configs)
  {
    var paths := Sort(request.hashed + request.configs);
    HashedIsOrdered(request);
    if r in Hashed(request) {
      var i :| 0 <= i < |paths| && Hashed(request)[i] == r;
      assert paths[i] in paths;
    }
    if r.kind == FileKind && r.path in paths {
      var i :| 0 <= i < |paths| && paths[i] == r.path;
      assert Hashed(request)[i] == r;
    }
  }

  lemma MetadataIsOrdered(tree: seq<Entry>, request: Request)
    requires ValidTree(tree) && Accepted(request) && AllFolders(tree, request.metadataRoots)
    ensures SortedBy(Metadata(tree, request), PathOf) && DistinctBy(Metadata(tree, request), PathOf)
    ensures |PathSet(Metadata(tree, request))| == |Metadata(tree, request)|
    ensures forall r :: r in Metadata(tree, request) <==> r in MetadataRecords(tree, request.metadataRoots)
  {
    var records := MetadataRecords(tree, request.metadataRoots);
    MetadataIsDistinct(tree, request.metadataRoots);
    SortByDistinct(records, PathOf);
    SortBySorts(records, PathOf);
    SortByMembers(records, PathOf);
    DistinctPathCount(Metadata(tree, request));
  }

  lemma CaptureIsDisjoint(tree: seq<Entry>, request: Request)
    requires ValidTree(tree) && Accepted(request) && AllFolders(tree, request.metadataRoots)
    ensures PathSet(Hashed(request)) !! PathSet(Metadata(tree, request))
    ensures DistinctBy(Hashed(request) + Metadata(tree, request), PathOf)
  {
    var hashed, metadata := Hashed(request), Metadata(tree, request);
    HashedIsOrdered(request);
    MetadataIsOrdered(tree, request);
    forall i, j | 0 <= i < |hashed| && 0 <= j < |metadata| ensures PathOf(hashed[i]) != PathOf(metadata[j]) {
      assert metadata[j] in metadata;
      HashedApart(tree, request, metadata[j]);
      assert hashed[i].path in Sort(request.hashed + request.configs);
    }
    DistinctAppend(hashed, metadata, PathOf);
    forall p | p in PathSet(hashed) ensures p !in PathSet(metadata) {
      PathSetHolds(hashed, p);
      PathSetHolds(metadata, p);
      var i :| 0 <= i < |hashed| && hashed[i].path == p;
      forall j | 0 <= j < |metadata| ensures metadata[j].path != p {
        assert PathOf(hashed[i]) != PathOf(metadata[j]);
      }
    }
  }

  // Every guard between an accepted request and its manifest is satisfied.
  lemma CaptureIsAccepted(tree: seq<Entry>, request: Request)
    requires ValidTree(tree) && Accepted(request) && AllFolders(tree, request.metadataRoots)
    ensures |PathSet(Metadata(tree, request))| == |Metadata(tree, request)|
    ensures PathSet(Hashed(request)) * PathSet(Metadata(tree, request)) == {}
    ensures ManifestAccepts(Sort(request.hashed + request.configs), Hashed(request), Metadata(tree, request))
  {
    HashedIsOrdered(request);
    MetadataIsOrdered(tree, request);
    CaptureIsDisjoint(tree, request);
  }

  lemma MetadataExtends(tree: seq<Entry>, roots: seq<string>, k: nat)
    requires k < |roots| && AllFolders(tree, roots[..k]) && IsFolder(tree, roots[k])
    ensures AllFolders(tree, roots[..k + 1])
    ensures MetadataRecords(tree, roots[..k + 1]) == MetadataRecords(tree, roots[..k]) + RootRecords(tree, roots[k])
  {
    assert roots[..k + 1][..k] == roots[..k];
  }

  // The declared roots, one after the other; none may be a link or anything but a directory.
  method CollectMetadata(tree: seq<Entry>, roots: seq<string>) returns (ok: bool, records: seq<Record>)
    requires ValidTree(tree)
    ensures ok <==> AllFolders(tree, roots)
    ensures ok ==> records == MetadataRecords(tree, roots)
  {
    records := [];
    for k := 0 to |roots|
      invariant AllFolders(tree, roots[..k]) && records == MetadataRecords(tree, roots[..k])
    {
      if !IsFolder(tree, roots[k]) { return false, records; }
      FoldersAreValid(tree, Split(roots[k], '/'));
      var found := WalkMetadataRoot(tree, roots[k], Below(tree, roots[k]));
      MetadataExtends(tree, roots, k);
      records := records + found;
    }
    assert roots[..|roots|] == roots;
    ok := true;
  }

  predicate SomeUnhashable(request: Request, hashable: string -> bool) {
    exists p :: p in request.hashed + request.configs && !hashable(p)
  }

  /**
   * _capture_non_git_manifest, for any root but the transformers one. Whatever the tree, an
   * accepted request is refused exactly when it declares nothing, declares a path that cannot be
   * hashed, or declares a metadata root that is not a directory; never by the duplicate guard,
   * the overlap guard, or the manifest's own checks.
   */
  method CaptureNonGit(tree: seq<Entry>, request: Request, hashable: string -> bool) returns (capture: Capture)
    requires ValidTree(tree) && Accepted(request)
    ensures capture.NothingDeclared? <==> request.hashed == [] && request.configs == []
    ensures capture.Unhashable? <==> !capture.NothingDeclared? && SomeUnhashable(request, hashable)
    ensures capture.RootNotFolder? <==>
            !capture.NothingDeclared? && !capture.Unhashable? && !AllFolders(tree, request.metadataRoots)
    ensures capture.Manifest? <==> !capture.NothingDeclared? && !capture.Unhashable? && !capture.RootNotFolder?
    ensures capture.Manifest? ==>
              && AllFolders(tree, request.metadataRoots)
              && capture.hashed == Hashed(request) && capture.metadata == Metadata(tree, request)
              && ManifestAccepts(capture.inventory, capture.hashed, capture.metadata)
    ensures capture.Manifest? ==>
              && Sorted(capture.inventory) && Distinct(capture.inventory)
              && forall p :: p in capture.inventory <==> p in request.hashed || p in request.configs
    ensures capture.Manifest? ==>
              forall r :: r in capture.hashed <==>
                r.kind == FileKind && (r.path in request.hashed || r.path in request.configs)
  {
    if request.hashed == [] && request.configs == [] { return NothingDeclared; }
    var inventory := Sort(request.hashed + request.configs);
    HashedIsOrdered(request);
    if exists p :: p in inventory && !hashable(p) { return Unhashable; }
    var hashed := FileRecords(inventory);
    var ok, records := CollectMetadata(tree, request.metadataRoots);
    if !ok { return RootNotFolder; }
    var metadata := SortBy(records, PathOf);
    CaptureIsAccepted(tree, request);
    forall r ensures r in hashed <==> r.kind == FileKind && (r.path in request.hashed || r.path in request.configs) {
      HashedAre(request, r);
    }
    if |PathSet(metadata)| != |metadata| { return DuplicateMetadata; }
    if PathSet(hashed) * PathSet(metadata) != {} { return RecordsOverlap; }
    if !ManifestAccepts(inventory, hashed, metadata) { return ManifestRefused; }
    return Manifest(inventory, hashed, metadata);
  }

  // The record is that of the node at this path below the root.
  ghost predicate LiesBelow(below: seq<Entry>, root: string, path: seq<string>, r: Record) {
    var node := At(below, path);
    node.Some? && r.path == root + "/" + Join(path, '/') && IsKind(node.value, r.kind)
  }

  lemma LiesBelowIs(below: seq<Entry>, root: string, path: seq<string>, r: Record)
    ensures LiesBelow(below, root, path, r) <==> Recorded(below, path, root + "/", NO_RULES, r)
  {
    var node := At(below, path);
    if node.Some? { KindIs(node.value, r.kind); }
    assert !Prunes(path, NO_RULES);
  }

  // A captured metadata record is one node strictly below one declared root, and each such node
  // is captured, exactly once by MetadataIsOrdered.
  lemma MetadataIsWhatLiesBelow(tree: seq<Entry>, request: Request, r: Record)
    requires ValidTree(tree) && Accepted(request) && AllFolders(tree, request.metadataRoots)
    ensures r in Metadata(tree, request) <==>
            exists k, path :: 0 <= k < |request.metadataRoots| &&
                              var root := request.metadataRoots[k]; LiesBelow(Below(tree, root), root, path, r)
  {
    MetadataIsOrdered(tree, request);
    if r in Metadata(tree, request) {
      var k := MetadataHasRoot(tree, request.metadataRoots, r);
      var root := request.metadataRoots[k];
      var below := Below(tree, root);
      var path := RecordHasPath(below, SortedNames(below), root + "/", NO_RULES, r);
      LiesBelowIs(below, root, path, r);
    }
    forall k, path | 0 <= k < |request.metadataRoots| &&
                     LiesBelow(Below(tree, request.metadataRoots[k]), request.metadataRoots[k], path, r)
      ensures r in Metadata(tree, request)
    {
      RootIsCaptured(tree, request, k, path, r);
    }
  }

  lemma RootIsCaptured(tree: seq<Entry>, request: Request, k: nat, path: seq<string>, r: Record)
    requires ValidTree(tree) && Accepted(request) && AllFolders(tree, request.metadataRoots)
    requires k < |request.metadataRoots|
    requires LiesBelow(Below(tree, request.metadataRoots[k]), request.metadataRoots[k], path, r)
    ensures r in Metadata(tree, request)
  {
    var root := request.metadataRoots[k];
    var below := Below(tree, root);
    MetadataIsOrdered(tree, request);
    SortedNamesHold(below);
    LiesBelowIs(below, root, path, r);
    PathIsRecorded(below, SortedNames(below), root + "/", NO_RULES, r, path);
    MetadataHolds(tree, request.metadataRoots, k, r);
  }
}
