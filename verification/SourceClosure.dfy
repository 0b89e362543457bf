/**
 * The sealed protocol source closure: which owned modules are reachable from the one
 * receipt-producing module, and how module names and archive entries correspond.
 */
module SourceClosure {
  import opened Wrappers
  import opened Text
  import Reachability

  // One import statement; an absent base and level 0 are written "" and 0.
  datatype ImportNode = Import(names: seq<string>) | ImportFrom(level: nat, base: string, names: seq<string>)

  datatype SourceFile =
    | Unreadable                                          // found, but not a regular file without links
    | Unparsable(bytes: string)
    | Parsed(bytes: string, imports: seq<ImportNode>)

  // The owner's tree, by path components, and the standard library's module names.
  datatype Repository = Repository(files: map<seq<string>, SourceFile>, stdlib: set<string>) {
    // Directory entries are non-empty, hold no slash and are not dots.
    ghost predicate Valid() {
      forall p :: p in files ==> |p| > 0 && forall i :: 0 <= i < |p| ==> Component(p[i])
    }
  }

  datatype Location = Location(parts: seq<string>, archive: string, package: bool)

  const START := "scripts.backend_eval.protocol_phase"

  // _module_file_location
  function ModuleFileLocation(repo: Repository, parts: seq<string>, root: string): Option<Location>
    requires |parts| >= 2
  {
    var packageInit := parts + ["__init__.py"];
    var moduleFile := parts[..|parts| - 1] + [parts[|parts| - 1] + ".py"];
    if packageInit in repo.files then
      Some(Location(packageInit, root + "/" + Join(parts[2..], '/') + "/__init__.py", true))
    else if moduleFile in repo.files then Some(Location(moduleFile, root + "/" + Join(parts[2..], '/') + ".py", false))
    else None
  }

  // _owned_module_location
  function OwnedModuleLocation(repo: Repository, module_: string): Option<Location> {
    if module_ == "scripts" then Some(Location(["scripts", "__init__.py"], "scripts/__init__.py", true))
    else if module_ == "scripts.backend_eval" then
      Some(Location(["scripts", "backend_eval", "__init__.py"], "scripts/backend_eval/__init__.py", true))
    else if StartsWith(module_, "scripts.backend_eval.") then
      EvaluatorLocation(repo, module_[21..])
    else if module_ == "serena_light" then
      Some(Location(["src", "serena_light", "__init__.py"], "serena_light/__init__.py", true))
    else if StartsWith(module_, "serena_light.") then
      ProductionLocation(repo, module_[13..])
    else None
  }

  function EvaluatorLocation(repo: Repository, below: string): Option<Location> {
    ModuleFileLocation(repo, ["scripts", "backend_eval"] + Split(below, '.'), "scripts/backend_eval")
  }

  function ProductionLocation(repo: Repository, below: string): Option<Location> {
    ModuleFileLocation(repo, ["src", "serena_light"] + Split(below, '.'), "serena_light")
  }

  // _parent_packages
  function ParentPackages(module_: string): set<string> {
    var parts := Split(module_, '.');
    set i | 1 <= i < |parts| :: Join(parts[..i], '.')
  }

  // What one import statement contributes; None for a relative import above the root.
  function NodeImports(module_: string, package: bool, node: ImportNode): Option<set<string>> {
    match node
    case Import(names) => Some(set n | n in names)
    case ImportFrom(level, base, names) =>
      var parts := Split(module_, '.');
      var context := if package then parts else parts[..|parts| - 1];
      if level > 0 && |context| - level + 1 < 0 then None
      else
        var kept := if level > 0 then context[..|context| - level + 1] else [];
        var full := Join(kept + if base == "" then [] else Split(base, '.'), '.');
        if full == "" then Some({})
        else Some({full} + set n | n in names && n != "*" :: full + "." + n)
  }

  function ImportsOf(module_: string, package: bool, nodes: seq<ImportNode>): Option<set<string>> {
    if |nodes| == 0 then Some({})
    else
      var before := ImportsOf(module_, package, nodes[..|nodes| - 1]);
      var last := NodeImports(module_, package, nodes[|nodes| - 1]);
      if before.None? || last.None? then None else Some(before.value + last.value)
  }

  // _source_imports
  method SourceImports(module_: string, package: bool, nodes: seq<ImportNode>) returns (imported: Option<set<string>>)
    ensures imported == ImportsOf(module_, package, nodes)
  {
    imported := Some({});
    var i := 0;
    while i < |nodes|
      invariant 0 <= i <= |nodes|
      invariant imported.Some? && imported == ImportsOf(module_, package, nodes[..i])
    {
      var more := NodeImports(module_, package, nodes[i]);
      assert nodes[..i + 1][..i] == nodes[..i];
      if more.None? {
        UnresolvedStays(module_, package, nodes, i + 1);
        return None;
      }
      imported := Some(imported.value + more.value);
      i := i + 1;
    }
    assert nodes[..i] == nodes;
  }

  lemma {:induction false} UnresolvedStays(module_: string, package: bool, nodes: seq<ImportNode>, i: nat)
    requires i <= |nodes| && ImportsOf(module_, package, nodes[..i]).None?
    ensures ImportsOf(module_, package, nodes).None?
    decreases |nodes|
  {
    if i == |nodes| {
      assert nodes[..i] == nodes;
    } else {
      assert nodes[..|nodes| - 1][..i] == nodes[..i];
      UnresolvedStays(module_, package, nodes[..|nodes| - 1], i);
    }
  }

  function Root(name: string): string { Split(name, '.')[0] }

  predicate Owned(name: string) { Root(name) == "scripts" || Root(name) == "serena_light" }

  function FileOf(repo: Repository, module_: string): Option<SourceFile> {
    var location := OwnedModuleLocation(repo, module_);
    if location.Some? && location.value.parts in repo.files then Some(repo.files[location.value.parts]) else None
  }

  // The names a module imports, if it can be located, read, parsed and resolved.
  function Imports(repo: Repository, module_: string): Option<set<string>> {
    var file := FileOf(repo, module_);
    if file.Some? && file.value.Parsed?
    then ImportsOf(module_, OwnedModuleLocation(repo, module_).value.package, file.value.imports)
    else None
  }

  predicate Declared(repo: Repository, name: string) {
    Owned(name) || Root(name) == "psutil" || Root(name) == "" || Root(name) in repo.stdlib
  }

  // A module the closure can take in.
  predicate Good(repo: Repository, module_: string) {
    var imports := Imports(repo, module_);
    imports.Some? && forall name :: name in imports.value ==> Declared(repo, name)
  }

  // Where a module leads: its parent packages, and its owned imports that resolve.
  function Edges(repo: Repository, module_: string): set<string> {
    if !Good(repo, module_) then {}
    else ParentPackages(module_)
         + set name | name in Imports(repo, module_).value && Owned(name) && OwnedModuleLocation(repo, name).Some?
  }

  ghost predicate Reachable(repo: Repository, module_: string) {
    Reachability.Reachable(m => Edges(repo, m), START, module_)
  }

  predicate ImportsPsutil(repo: Repository, module_: string) {
    Imports(repo, module_).Some? && exists name :: name in Imports(repo, module_).value && Root(name) == "psutil"
  }

  datatype Closure = Refused | Sealed(entries: map<string, string>, needsPsutil: bool)

  // The archive name and the bytes of one module.
  function EntryOf(repo: Repository, module_: string): (string, string)
    requires Good(repo, module_)
  {
    (OwnedModuleLocation(repo, module_).value.archive, FileOf(repo, module_).value.bytes)
  }

  // Every reachable module can be taken in.
  ghost predicate Sealable(repo: Repository) { forall m :: Reachable(repo, m) ==> Good(repo, m) }

  ghost predicate NeedsPsutil(repo: Repository) { exists m :: Reachable(repo, m) && ImportsPsutil(repo, m) }

  // Exactly the reachable modules' entries.
  ghost predicate HoldsReachable(repo: Repository, entries: map<string, string>)
    requires Sealable(repo)
  {
    && (forall m :: Reachable(repo, m) ==> EntryOf(repo, m) in entries.Items)
    && (forall a :: a in entries ==> exists m :: Reachable(repo, m) && EntryOf(repo, m) == (a, entries[a]))
  }

  /**
   * What the closure is, with no order in it: refused exactly when some reachable module cannot
   * be taken in; otherwise exactly the reachable modules' entries, and psutil exactly when one
   * of them imports it.
   */
  ghost predicate IsClosure(repo: Repository, closure: Closure) {
    && (closure.Sealed? <==> Sealable(repo))
    && (closure.Sealed? ==> HoldsReachable(repo, closure.entries) && closure.needsPsutil == NeedsPsutil(repo))
  }

  // --- names and paths ----------------------------------------------------------------------

  // The archive drops the leading "src" of a production path.
  function ArchiveParts(parts: seq<string>): seq<string> {
    if |parts| > 0 && parts[0] == "src" then parts[1..] else parts
  }

  ghost predicate OwnedPath(parts: seq<string>) {
    |parts| >= 2 && (parts[0] == "scripts" || (parts[0] == "src" && parts[1] == "serena_light"))
  }

  lemma PackagePath(kept: seq<string>, below: seq<string>)
    requires |kept| > 0 && |below| > 0
    ensures Join(kept + below + ["__init__.py"], '/') == Join(kept, '/') + "/" + Join(below, '/') + "/__init__.py"
  {
    JoinAppend(kept + below, ["__init__.py"], '/');
    JoinAppend(kept, below, '/');
  }

  lemma ModulePath(kept: seq<string>, below: seq<string>)
    requires |kept| > 0 && |below| > 0
    ensures Join(kept + (below[..|below| - 1] + [below[|below| - 1] + ".py"]), '/') ==
            Join(kept, '/') + "/" + Join(below, '/') + ".py"
  {
    JoinSuffix(below, ".py", '/');
    JoinAppend(kept, below[..|below| - 1] + [below[|below| - 1] + ".py"], '/');
  }

  lemma LocatedPath(repo: Repository, first: string, second: string, below: seq<string>, root: string)
    requires |below| > 0 && ModuleFileLocation(repo, [first, second] + below, root).Some?
    requires root == Join(ArchiveParts([first, second]), '/')
    ensures var l := ModuleFileLocation(repo, [first, second] + below, root).value;
            && |l.parts| > 2 && l.parts[0] == first && l.parts[1] == second
            && l.archive == Join(ArchiveParts(l.parts), '/')
  {
    var parts := [first, second] + below;
    var kept := ArchiveParts([first, second]);
    assert parts[2..] == below;
    PackagePath(kept, below);
    ModulePath(kept, below);
    var changed := below[..|below| - 1] + [below[|below| - 1] + ".py"];
    assert parts[..|parts| - 1] + [parts[|parts| - 1] + ".py"] == [first, second] + changed;
    assert ArchiveParts([first, second] + changed) == kept + changed;
    assert ArchiveParts(parts + ["__init__.py"]) == kept + below + ["__init__.py"];
  }

  lemma JoinTwo(a: string, b: string)
    ensures Join([a, b], '/') == a + "/" + b
  {
    assert [a, b][1..] == [b];
  }

  lemma JoinThree(a: string, b: string, c: string)
    ensures Join([a, b, c], '/') == a + "/" + b + "/" + c
  {
    assert [a, b, c][1..] == [b, c];
    JoinTwo(b, c);
  }

  lemma TopPackagePaths()
    ensures Join(["scripts", "__init__.py"], '/') == "scripts/__init__.py"
    ensures Join(["scripts", "backend_eval", "__init__.py"], '/') == "scripts/backend_eval/__init__.py"
    ensures Join(["serena_light", "__init__.py"], '/') == "serena_light/__init__.py"
    ensures Join(["scripts", "backend_eval"], '/') == "scripts/backend_eval"
  {
    JoinTwo("scripts", "__init__.py");
    JoinTwo("scripts", "backend_eval");
    JoinTwo("serena_light", "__init__.py");
    JoinThree("scripts", "backend_eval", "__init__.py");
  }

  ghost predicate ArchiveAgrees(l: Location) {
    OwnedPath(l.parts) && l.archive == Join(ArchiveParts(l.parts), '/')
  }

  lemma ScriptsArchive(repo: Repository, below: string)
    requires EvaluatorLocation(repo, below).Some?
    ensures ArchiveAgrees(EvaluatorLocation(repo, below).value)
  {
    TopPackagePaths();
    LocatedPath(repo, "scripts", "backend_eval", Split(below, '.'), "scripts/backend_eval");
  }

  lemma ProductionArchive(repo: Repository, below: string)
    requires ProductionLocation(repo, below).Some?
    ensures ArchiveAgrees(ProductionLocation(repo, below).value)
  {
    assert ["src", "serena_light"][1..] == ["serena_light"];
    LocatedPath(repo, "src", "serena_light", Split(below, '.'), "serena_light");
  }

  // A located module's archive name is its path, joined.
  lemma ArchiveIsPath(repo: Repository, module_: string)
    requires OwnedModuleLocation(repo, module_).Some?
    ensures ArchiveAgrees(OwnedModuleLocation(repo, module_).value)
  {
    if module_ in {"scripts", "scripts.backend_eval", "serena_light"} {
      TopPackagePaths();
      assert ["src", "serena_light", "__init__.py"][1..] == ["serena_light", "__init__.py"];
    } else if StartsWith(module_, "scripts.backend_eval.") {
      ScriptsArchive(repo, module_[21..]);
    } else {
      ProductionArchive(repo, module_[13..]);
    }
  }

  lemma ArchivePathsDiffer(p: seq<string>, q: seq<string>)
    requires OwnedPath(p) && OwnedPath(q) && AllFree(p, '/') && AllFree(q, '/')
    requires Join(ArchiveParts(p), '/') == Join(ArchiveParts(q), '/')
    ensures p == q
  {
    SplitJoin(ArchiveParts(p), '/');
    SplitJoin(ArchiveParts(q), '/');
    assert ArchiveParts(p) == ArchiveParts(q);
    assert p[0] == q[0];
    if p[0] == "src" { assert p == ["src"] + p[1..] && q == ["src"] + q[1..]; }
  }

  // Two modules with one archive name are one file.
  lemma SameArchiveSameFile(repo: Repository, m: string, n: string)
    requires repo.Valid() && Good(repo, m) && Good(repo, n)
    requires EntryOf(repo, m).0 == EntryOf(repo, n).0
    ensures EntryOf(repo, m) == EntryOf(repo, n)
  {
    ArchiveIsPath(repo, m);
    ArchiveIsPath(repo, n);
    ArchivePathsDiffer(OwnedModuleLocation(repo, m).value.parts, OwnedModuleLocation(repo, n).value.parts);
  }

  // --- the worklist -------------------------------------------------------------------------

  // The dotted name of the module whose path components are given.
  function DottedName(parts: seq<string>): string { Join(ArchiveParts(parts), '.') }

  function DropSuffix(s: string, count: nat): string { if |s| < count then s else s[..|s| - count] }

  // Every module that can be located at all: finitely many.
  function Universe(repo: Repository): set<string> {
    {"scripts", "scripts.backend_eval", "serena_light"}
    + (set p | p in repo.files && |p| > 0 :: DottedName(p[..|p| - 1]))
    + (set p | p in repo.files && |p| > 0 :: DottedName(p[..|p| - 1] + [DropSuffix(p[|p| - 1], 3)]))
  }

  lemma LocatedInUniverse(repo: Repository, parts: seq<string>, root: string)
    requires |parts| >= 2 && ModuleFileLocation(repo, parts, root).Some?
    ensures DottedName(parts) in Universe(repo)
  {
    var l := ModuleFileLocation(repo, parts, root).value;
    var n := |parts| - 1;
    if l.package {
      assert l.parts[..|l.parts| - 1] == parts;
    } else {
      assert l.parts[..|l.parts| - 1] == parts[..n];
      assert DropSuffix(parts[n] + ".py", 3) == parts[n];
      assert parts[..n] + [parts[n]] == parts;
    }
  }

  lemma DottedBelow(kept: seq<string>, below: string)
    requires |kept| > 0
    ensures Join(kept + Split(below, '.'), '.') == Join(kept, '.') + "." + below
  {
    JoinAppend(kept, Split(below, '.'), '.');
    JoinSplit(below, '.');
  }

  lemma ScriptsDotted(below: string)
    ensures DottedName(["scripts", "backend_eval"] + Split(below, '.')) == "scripts.backend_eval." + below
  {
    DottedBelow(["scripts", "backend_eval"], below);
    assert ["scripts", "backend_eval"][1..] == ["backend_eval"];
  }

  lemma ProductionDotted(below: string)
    ensures DottedName(["src", "serena_light"] + Split(below, '.')) == "serena_light." + below
  {
    DottedBelow(["serena_light"], below);
    assert (["src", "serena_light"] + Split(below, '.'))[1..] == ["serena_light"] + Split(below, '.');
  }

  lemma ScriptsInUniverse(repo: Repository, below: string)
    requires EvaluatorLocation(repo, below).Some?
    ensures "scripts.backend_eval." + below in Universe(repo)
  {
    LocatedInUniverse(repo, ["scripts", "backend_eval"] + Split(below, '.'), "scripts/backend_eval");
    ScriptsDotted(below);
  }

  lemma ProductionInUniverse(repo: Repository, below: string)
    requires ProductionLocation(repo, below).Some?
    ensures "serena_light." + below in Universe(repo)
  {
    LocatedInUniverse(repo, ["src", "serena_light"] + Split(below, '.'), "serena_light");
    ProductionDotted(below);
  }

  lemma OwnedInUniverse(repo: Repository, module_: string)
    requires OwnedModuleLocation(repo, module_).Some?
    ensures module_ in Universe(repo)
  {
    if module_ == "scripts" || module_ == "scripts.backend_eval" || module_ == "serena_light" {
      TopInUniverse(repo, module_);
    } else if StartsWith(module_, "scripts.backend_eval.") {
      EvaluatorInUniverse(repo, module_);
    } else {
      ServiceInUniverse(repo, module_);
    }
  }

  lemma TopInUniverse(repo: Repository, module_: string)
    requires module_ == "scripts" || module_ == "scripts.backend_eval" || module_ == "serena_light"
    ensures module_ in Universe(repo)
  {
  }

  lemma EvaluatorInUniverse(repo: Repository, module_: string)
    requires StartsWith(module_, "scripts.backend_eval.") && EvaluatorLocation(repo, module_[21..]).Some?
    ensures module_ in Universe(repo)
  {
    ScriptsInUniverse(repo, module_[21..]);
    assert module_ == module_[..21] + module_[21..];
  }

  lemma ServiceInUniverse(repo: Repository, module_: string)
    requires StartsWith(module_, "serena_light.") && ProductionLocation(repo, module_[13..]).Some?
    ensures module_ in Universe(repo)
  {
    ProductionInUniverse(repo, module_[13..]);
    assert module_ == module_[..13] + module_[13..];
  }

  // Every visited module is reachable, can be taken in, and has its entry.
  ghost predicate Covered(repo: Repository, visited: set<string>, entries: map<string, string>) {
    forall m :: m in visited ==> Reachable(repo, m) && Good(repo, m) && EntryOf(repo, m) in entries.Items
  }

  // Every entry is some visited module's.
  ghost predicate Sourced(repo: Repository, visited: set<string>, entries: map<string, string>) {
    forall a :: a in entries ==> exists m :: m in visited && Good(repo, m) && EntryOf(repo, m) == (a, entries[a])
  }

  // What the worklist has established after some modules were visited.
  ghost predicate Explored(repo: Repository, visited: set<string>, entries: map<string, string>, needsPsutil: bool) {
    && Covered(repo, visited, entries)
    && Sourced(repo, visited, entries)
    && (needsPsutil <==> exists m :: m in visited && ImportsPsutil(repo, m))
  }

  lemma ExploredAll(repo: Repository, visited: set<string>, entries: map<string, string>, needsPsutil: bool)
    requires Explored(repo, visited, entries, needsPsutil)
    requires forall m :: Reachable(repo, m) ==> m in visited
    ensures IsClosure(repo, Sealed(entries, needsPsutil))
  {
  }

  lemma RefusedBy(repo: Repository, module_: string)
    requires Reachable(repo, module_) && !Good(repo, module_)
    ensures IsClosure(repo, Refused)
  {
  }

  // The order in which imports are looked at is left open.
  method FollowImports(repo: Repository, imports: set<string>, pending: seq<string>)
    returns (ok: bool, pending': seq<string>, psutil: bool)
    ensures ok <==> forall name :: name in imports ==> Declared(repo, name)
    ensures ok ==> (psutil <==> exists name :: name in imports && Root(name) == "psutil")
    ensures ok ==> forall m :: m in pending' <==>
                                 m in pending || (m in imports && Owned(m) && OwnedModuleLocation(repo, m).Some?)
  {
    pending', psutil := pending, false;
    var left := imports;
    while left != {}
      invariant left <= imports
      invariant forall name :: name in imports - left ==> Declared(repo, name)
      invariant psutil <==> exists name :: name in imports - left && Root(name) == "psutil"
      invariant forall m :: m in pending' <==>
                              m in pending || (m in imports - left && Owned(m) && OwnedModuleLocation(repo, m).Some?)
    {
      var name :| name in left;
      left := left - {name};
      if Owned(name) {
        if OwnedModuleLocation(repo, name).Some? { pending' := pending' + [name]; }
      } else if Root(name) == "psutil" {
        psutil := true;
      } else if Root(name) != "" && Root(name) !in repo.stdlib {
        return false, pending', psutil;
      }
    }
    ok := true;
  }

  method PushParents(module_: string, visited: set<string>, pending: seq<string>) returns (pending': seq<string>)
    ensures forall m :: m in pending' <==> m in pending || (m in ParentPackages(module_) && m !in visited)
  {
    pending' := pending;
    var parts := Split(module_, '.');
    for i := 1 to |parts|
      invariant forall m :: m in pending' <==>
                              m in pending || (m !in visited && exists k :: 1 <= k < i && m == Join(parts[..k], '.'))
    {
      var parent := Join(parts[..i], '.');
      if parent !in visited { pending' := pending' + [parent]; }
    }
  }

  // Taking in one more module.
  lemma ExploredMore(repo: Repository, visited: set<string>, entries: map<string, string>, needsPsutil: bool, m: string)
    requires repo.Valid() && Explored(repo, visited, entries, needsPsutil) && Reachable(repo, m) && Good(repo, m)
    ensures var (archive, bytes) := EntryOf(repo, m);
            Explored(repo, visited + {m}, entries[archive := bytes], needsPsutil || ImportsPsutil(repo, m))
  {
    CoveredMore(repo, visited, entries, m);
    SourcedMore(repo, visited, entries, m);
  }

  lemma VisitedMore(repo: Repository, visited: set<string>, entries: map<string, string>, needsPsutil: bool, m: string)
    requires repo.Valid() && Explored(repo, visited, entries, needsPsutil) && Reachable(repo, m) && Good(repo, m)
    requires m !in visited && visited <= Universe(repo)
    ensures var (archive, bytes) := EntryOf(repo, m);
            Explored(repo, visited + {m}, entries[archive := bytes], needsPsutil || ImportsPsutil(repo, m))
    ensures visited + {m} <= Universe(repo) && |Universe(repo) - (visited + {m})| < |Universe(repo) - visited|
  {
    ExploredMore(repo, visited, entries, needsPsutil, m);
    OwnedInUniverse(repo, m);
    OneFewer(Universe(repo), visited, m);
  }

  lemma OneFewer(universe: set<string>, visited: set<string>, m: string)
    requires m in universe && m !in visited
    ensures |universe - (visited + {m})| < |universe - visited|
  {
    assert universe - visited == (universe - (visited + {m})) + {m};
  }

  lemma CoveredMore(repo: Repository, visited: set<string>, entries: map<string, string>, m: string)
    requires repo.Valid() && Covered(repo, visited, entries) && Reachable(repo, m) && Good(repo, m)
    ensures Covered(repo, visited + {m}, entries[EntryOf(repo, m).0 := EntryOf(repo, m).1])
  {
    forall n | n in visited + {m}
      ensures Good(repo, n) && EntryOf(repo, n) in entries[EntryOf(repo, m).0 := EntryOf(repo, m).1].Items
    {
      EntryStays(repo, entries, m, n);
    }
  }

  lemma EntryStays(repo: Repository, entries: map<string, string>, m: string, n: string)
    requires repo.Valid() && Good(repo, m) && Good(repo, n) && (n == m || EntryOf(repo, n) in entries.Items)
    ensures EntryOf(repo, n) in entries[EntryOf(repo, m).0 := EntryOf(repo, m).1].Items
  {
    if EntryOf(repo, n).0 == EntryOf(repo, m).0 { SameArchiveSameFile(repo, m, n); }
  }

  lemma SourcedMore(repo: Repository, visited: set<string>, entries: map<string, string>, m: string)
    requires Sourced(repo, visited, entries) && Good(repo, m)
    ensures Sourced(repo, visited + {m}, entries[EntryOf(repo, m).0 := EntryOf(repo, m).1])
  {
    var more := entries[EntryOf(repo, m).0 := EntryOf(repo, m).1];
    forall a | a in more
      ensures exists n :: n in visited + {m} && Good(repo, n) && EntryOf(repo, n) == (a, more[a])
    {
      if a == EntryOf(repo, m).0 {
        assert m in visited + {m};
      } else {
        var n :| n in visited && Good(repo, n) && EntryOf(repo, n) == (a, entries[a]);
        assert n in visited + {m};
      }
    }
  }

  lemma EdgesOfGood(repo: Repository, m: string, imports: set<string>)
    requires Good(repo, m) && Imports(repo, m) == Some(imports)
    ensures forall n :: n in Edges(repo, m) <==>
                          n in ParentPackages(m) || (n in imports && Owned(n) && OwnedModuleLocation(repo, n).Some?)
  {
  }

  /**
   * _reachable_protocol_sources. The imports of a module come out of a set, in any order; the
   * result does not depend on it.
   */
  method ReachableProtocolSources(repo: Repository) returns (closure: Closure)
    requires repo.Valid()
    ensures IsClosure(repo, closure)
  {
    var pending: seq<string>, visited: set<string> := [START], {};
    var entries: map<string, string>, needsPsutil := map[], false;
    ghost var edges := (m: string) => Edges(repo, m);
    Reachability.StartIsReachable(edges, START);
    while pending != []
      invariant Reachability.Frontier(edges, START, visited, pending)
      invariant Explored(repo, visited, entries, needsPsutil)
      invariant visited <= Universe(repo)
      decreases |Universe(repo) - visited|, |pending|
    {
      var module_, rest := pending[|pending| - 1], pending[..|pending| - 1];
      if module_ in visited {
        Reachability.FrontierSkip(edges, START, visited, pending);
        pending := rest;
        continue;
      }
      var ok, pending', more := VisitModule(repo, module_, visited, rest);
      if !ok {
        RefusedBy(repo, module_);
        return Refused;
      }
      Reachability.FrontierVisit(edges, START, visited, pending, pending');
      VisitedMore(repo, visited, entries, needsPsutil, module_);
      var (archive, bytes) := EntryOf(repo, module_);
      entries, visited, pending, needsPsutil :=
        entries[archive := bytes], visited + {module_}, pending', needsPsutil || more;
    }
    Reachability.FrontierDone(edges, START, visited);
    ExploredAll(repo, visited, entries, needsPsutil);
    closure := Sealed(entries, needsPsutil);
  }

  // One turn of the worklist: locate, read and parse the module, then push what it leads to.
  method VisitModule(repo: Repository, module_: string, visited: set<string>, rest: seq<string>)
    returns (ok: bool, pending: seq<string>, psutil: bool)
    ensures ok <==> Good(repo, module_)
    ensures ok ==> (psutil <==> ImportsPsutil(repo, module_))
    ensures ok ==> forall n :: n in rest ==> n in pending
    ensures ok ==> forall n :: n in pending ==> n in rest || n in Edges(repo, module_)
    ensures ok ==> forall n :: n in Edges(repo, module_) ==> n in visited || n == module_ || n in pending
  {
    pending, psutil := rest, false;
    var location := OwnedModuleLocation(repo, module_);
    if location.None? || location.value.parts !in repo.files { return false, pending, psutil; }
    var file := repo.files[location.value.parts];
    if !file.Parsed? { return false, pending, psutil; }
    pending := PushParents(module_, visited + {module_}, pending);
    var imports := SourceImports(module_, location.value.package, file.imports);
    if imports.None? { return false, pending, psutil; }
    ok, pending, psutil := FollowImports(repo, imports.value, pending);
    if ok { EdgesOfGood(repo, module_, imports.value); }
  }

  // The result is the same for every order: the specification admits only one.
  lemma SameForEveryOrder(repo: Repository, a: Closure, b: Closure)
    requires IsClosure(repo, a) && IsClosure(repo, b)
    ensures a == b
  {
    if a.Sealed? {
      SameEntries(repo, a.entries, b.entries);
      SameEntries(repo, b.entries, a.entries);
      assert a.entries == b.entries;
    }
  }

  lemma SameEntries(repo: Repository, a: map<string, string>, b: map<string, string>)
    requires Sealable(repo) && HoldsReachable(repo, a) && HoldsReachable(repo, b)
    ensures forall k :: k in a ==> k in b && b[k] == a[k]
  {
    forall k | k in a ensures k in b && b[k] == a[k] {
      var m :| Reachable(repo, m) && EntryOf(repo, m) == (k, a[k]);
    }
  }
}
