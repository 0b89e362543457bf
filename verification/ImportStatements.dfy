/**
 * What import statements mean to the sealed closure, statement by statement: which names they
 * bring in, when they cannot be resolved, and where a module leads.
 */
module ImportStatements {
  import opened Wrappers
  import opened Text
  import opened SourceClosure
  import Reachability

  // --- statements ---------------------------------------------------------------------------

  // The components of the package a module's relative imports start from.
  function PackageParts(module_: string, package: bool): seq<string> {
    var parts := Split(module_, '.');
    if package then parts else parts[..|parts| - 1]
  }

  // A stated base below what is kept of the package.
  function Extended(kept: seq<string>, base: string): string {
    if kept == [] then base else if base == "" then Join(kept, '.') else Join(kept, '.') + "." + base
  }

  /**
   * The module a `from` statement names. Without dots it is the stated one. Each dot after the
   * first drops one component of the package, and the stated one is below the rest.
   */
  ghost predicate IsBase(module_: string, package: bool, level: nat, base: string, full: string) {
    if level == 0 then full == base
    else exists kept, dropped ::
           && kept + dropped == PackageParts(module_, package) && |dropped| == level - 1
           && full == Extended(kept, base)
  }

  // The statement brings in the name: an imported module, the base of a `from` statement, or one
  // of its names below the base.
  ghost predicate Named(module_: string, package: bool, node: ImportNode, name: string) {
    match node
    case Import(names) => name in names
    case ImportFrom(level, base, names) =>
      exists full :: IsBase(module_, package, level, base, full) && full != "" && FromNames(full, names, name)
  }

  ghost predicate FromNames(full: string, names: seq<string>, name: string) {
    name == full || exists n :: n in names && n != "*" && name == full + "." + n
  }

  // Some statement brings in the name.
  ghost predicate SomeNames(module_: string, package: bool, nodes: seq<ImportNode>, name: string) {
    exists i :: 0 <= i < |nodes| && Named(module_, package, nodes[i], name)
  }

  // The statement climbs above the root.
  predicate Misplaced(module_: string, package: bool, node: ImportNode) {
    node.ImportFrom? && node.level > |PackageParts(module_, package)| + 1
  }

  lemma BaseIs(module_: string, package: bool, level: nat, base: string, full: string)
    requires level <= |PackageParts(module_, package)| + 1
    ensures IsBase(module_, package, level, base, full) <==>
            full == if level == 0 then base
                    else Extended(PackageParts(module_, package)[..|PackageParts(module_, package)| - level + 1], base)
  {
    var parts := PackageParts(module_, package);
    if level > 0 {
      var k := |parts| - level + 1;
      assert parts[..k] + parts[k..] == parts;
      forall kept, dropped | kept + dropped == parts && |dropped| == level - 1 ensures kept == parts[..k] {
        assert (kept + dropped)[..k] == kept;
      }
    }
  }

  lemma ExtendedIsJoin(kept: seq<string>, base: string)
    ensures Extended(kept, base) == Join(kept + if base == "" then [] else Split(base, '.'), '.')
  {
    JoinSplit(base, '.');
    if kept == [] {
      assert kept + Split(base, '.') == Split(base, '.') && kept + [] == kept;
    } else if base == "" {
      assert kept + [] == kept;
    } else {
      JoinAppend(kept, Split(base, '.'), '.');
    }
  }

  // The base as the components that are kept, and what a `from` statement contributes.
  lemma FromImportsAre(module_: string, package: bool, level: nat, base: string, names: seq<string>, full: string)
    requires level <= |PackageParts(module_, package)| + 1
    requires var parts := PackageParts(module_, package);
             full == Extended(if level > 0 then parts[..|parts| - level + 1] else [], base)
    ensures NodeImports(module_, package, ImportFrom(level, base, names)) ==
            Some(if full == "" then {} else {full} + set n | n in names && n != "*" :: full + "." + n)
  {
    var parts := PackageParts(module_, package);
    ExtendedIsJoin(if level > 0 then parts[..|parts| - level + 1] else [], base);
  }

  lemma FromNamesAre(full: string, names: seq<string>, name: string)
    ensures name in {full} + (set n | n in names && n != "*" :: full + "." + n) <==> FromNames(full, names, name)
  {
  }

  lemma NodeNames(module_: string, package: bool, node: ImportNode, name: string)
    ensures NodeImports(module_, package, node).None? <==> Misplaced(module_, package, node)
    ensures NodeImports(module_, package, node).Some? ==>
            (name in NodeImports(module_, package, node).value <==> Named(module_, package, node, name))
  {
    if node.ImportFrom? && !Misplaced(module_, package, node) {
      var parts := PackageParts(module_, package);
      var full := Extended(if node.level > 0 then parts[..|parts| - node.level + 1] else [], node.base);
      FromImportsAre(module_, package, node.level, node.base, node.names, full);
      FromNamesAre(full, node.names, name);
      NameComesFrom(module_, package, node, full, name);
    }
  }

  lemma NameComesFrom(module_: string, package: bool, node: ImportNode, full: string, name: string)
    requires node.ImportFrom? && !Misplaced(module_, package, node)
    requires var parts := PackageParts(module_, package);
             full == Extended(if node.level > 0 then parts[..|parts| - node.level + 1] else [], node.base)
    ensures Named(module_, package, node, name) <==> full != "" && FromNames(full, node.names, name)
  {
    forall other ensures IsBase(module_, package, node.level, node.base, other) <==> other == full {
      BaseIs(module_, package, node.level, node.base, other);
    }
  }

  /**
   * All statements of a module. They cannot be resolved exactly when one climbs above the root;
   * otherwise they bring in exactly what each of them names.
   */
  lemma {:induction false} StatementsName(module_: string, package: bool, nodes: seq<ImportNode>)
    ensures ImportsOf(module_, package, nodes).None? <==>
            exists i :: 0 <= i < |nodes| && Misplaced(module_, package, nodes[i])
    ensures ImportsOf(module_, package, nodes).Some? ==>
            forall name ::
              name in ImportsOf(module_, package, nodes).value <==> SomeNames(module_, package, nodes, name)
  {
    if |nodes| > 0 {
      var before, node := nodes[..|nodes| - 1], nodes[|nodes| - 1];
      StatementsName(module_, package, before);
      NodeNames(module_, package, node, "");
      assert forall i :: 0 <= i < |before| ==> before[i] == nodes[i];
      if ImportsOf(module_, package, nodes).Some? {
        forall name
          ensures name in ImportsOf(module_, package, nodes).value <==> SomeNames(module_, package, nodes, name)
        {
          assert before + [node] == nodes;
          OneMoreImports(module_, package, before, node, name);
        }
      }
    }
  }

  lemma OneMoreImports(module_: string, package: bool, before: seq<ImportNode>, node: ImportNode, name: string)
    requires ImportsOf(module_, package, before + [node]).Some? && ImportsOf(module_, package, before).Some?
    requires name in ImportsOf(module_, package, before).value <==> SomeNames(module_, package, before, name)
    ensures name in ImportsOf(module_, package, before + [node]).value <==>
            SomeNames(module_, package, before + [node], name)
  {
    assert (before + [node])[..|before|] == before;
    NodeNames(module_, package, node, name);
    OneMoreStatement(module_, package, before, node, name);
  }

  lemma OneMoreStatement(module_: string, package: bool, before: seq<ImportNode>, node: ImportNode, name: string)
    ensures SomeNames(module_, package, before + [node], name) <==>
            SomeNames(module_, package, before, name) || Named(module_, package, node, name)
  {
    var nodes := before + [node];
    assert nodes[|before|] == node && forall i :: 0 <= i < |before| ==> before[i] == nodes[i];
  }

  // --- modules ------------------------------------------------------------------------------

  // The name up to one of its dots.
  ghost predicate IsParent(name: string, module_: string) {
    exists k :: 0 <= k < |module_| && module_[k] == '.' && name == module_[..k]
  }

  lemma ParentsAre(module_: string, name: string)
    ensures name in ParentPackages(module_) <==> IsParent(name, module_)
  {
    var parts := Split(module_, '.');
    JoinSplit(module_, '.');
    if name in ParentPackages(module_) {
      var i :| 1 <= i < |parts| && name == Join(parts[..i], '.');
      assert parts == parts[..i] + parts[i..];
      JoinAppend(parts[..i], parts[i..], '.');
      assert module_[|name|] == '.' && name == module_[..|name|];
    }
    if k :| 0 <= k < |module_| && module_[k] == '.' && name == module_[..k] {
      assert module_ == name + ['.'] + module_[k + 1..];
      SplitAppend(name, module_[k + 1..], '.');
      var i := |Split(name, '.')|;
      assert parts[..i] == Split(name, '.');
      JoinSplit(name, '.');
    }
  }

  // The first component of the name is the root.
  predicate Under(name: string, root: string) { name == root || StartsWith(name, root + ".") }

  lemma RootIs(name: string, root: string)
    requires Free(root, '.')
    ensures Root(name) == root <==> Under(name, root)
  {
    if StartsWith(name, root + ".") {
      assert name == root + ['.'] + name[|root| + 1..];
      SplitAppend(root, name[|root| + 1..], '.');
    }
    SplitOfFree(root, '.');
    if Root(name) == root {
      var parts := Split(name, '.');
      JoinSplit(name, '.');
      if |parts| > 1 {
        assert parts == [root] + parts[1..];
        assert name[..|root| + 1] == root + ".";
      }
    }
  }

  // What may be imported: an owned module, psutil, the standard library, or nothing absolute.
  ghost predicate Allowed(repo: Repository, name: string) {
    || Under(name, "scripts") || Under(name, "serena_light") || Under(name, "psutil") || Under(name, "")
    || exists root :: root in repo.stdlib && Root(name) == root
  }

  lemma OwnedIs(name: string)
    ensures Owned(name) <==> Under(name, "scripts") || Under(name, "serena_light")
  {
    RootIs(name, "scripts");
    RootIs(name, "serena_light");
  }

  lemma AllowedIs(repo: Repository, name: string)
    ensures Declared(repo, name) <==> Allowed(repo, name)
  {
    OwnedIs(name);
    RootIs(name, "psutil");
    RootIs(name, "");
  }

  // --- files --------------------------------------------------------------------------------

  // Where a module's name leads in the tree: production sources lie below src.
  function Place(module_: string): (parts: seq<string>)
    ensures |parts| > 0
  {
    if Under(module_, "scripts") then Split(module_, '.') else ["src"] + Split(module_, '.')
  }

  function PackageFile(place: seq<string>): seq<string> { place + ["__init__.py"] }

  function ModuleFile(place: seq<string>): seq<string>
    requires |place| > 0
  {
    place[..|place| - 1] + [place[|place| - 1] + ".py"]
  }

  // The roots, which are packages whether or not their file is there.
  predicate Top(module_: string) {
    module_ == "scripts" || module_ == "scripts.backend_eval" || module_ == "serena_light"
  }

  predicate Inside(module_: string) {
    StartsWith(module_, "scripts.backend_eval.") || StartsWith(module_, "serena_light.")
  }

  // The file the code finds for a module is the one its name leads to.
  ghost predicate Found(repo: Repository, place: seq<string>, l: Option<Location>)
    requires |place| > 0
  {
    && (l.Some? <==> PackageFile(place) in repo.files || ModuleFile(place) in repo.files)
    && (l.Some? ==>
          && (l.value.package <==> PackageFile(place) in repo.files)
          && l.value.parts == if l.value.package then PackageFile(place) else ModuleFile(place))
  }

  lemma FileIsFound(repo: Repository, parts: seq<string>, root: string)
    requires |parts| >= 2
    ensures Found(repo, parts, ModuleFileLocation(repo, parts, root))
  {
  }

  lemma CutPrefix(s: string, prefix: string)
    requires StartsWith(s, prefix + ".")
    ensures s == prefix + ['.'] + s[|prefix| + 1..]
    ensures Split(s, '.') == Split(prefix, '.') + Split(s[|prefix| + 1..], '.')
  {
    assert s == prefix + ['.'] + s[|prefix| + 1..];
    SplitAppend(prefix, s[|prefix| + 1..], '.');
  }

  lemma EvaluatorFound(repo: Repository, module_: string, first: string, second: string)
    requires first == "scripts" && second == "backend_eval" && StartsWith(module_, first + "." + second + ".")
    ensures Found(repo, Place(module_), EvaluatorLocation(repo, module_[21..])) && Under(module_, first)
  {
    CutPrefix(module_, first + "." + second);
    SplitAppend(first, second, '.');
    SplitOfFree(first, '.');
    SplitOfFree(second, '.');
    assert first + ['.'] + second == first + "." + second;
    assert [first] + [second] == [first, second];
    assert module_[..8] == first + ".";
    FileIsFound(repo, [first, second] + Split(module_[21..], '.'), "scripts/backend_eval");
  }

  lemma ProductionFound(repo: Repository, module_: string, root: string)
    requires root == "serena_light" && StartsWith(module_, root + ".")
    ensures Found(repo, Place(module_), ProductionLocation(repo, module_[13..]))
  {
    CutPrefix(module_, root);
    SplitOfFree(root, '.');
    assert module_[1] == root[1] == 'e';
    assert ["src"] + ([root] + Split(module_[13..], '.')) == ["src", root] + Split(module_[13..], '.');
    NotUnderScripts(module_);
    FileIsFound(repo, ["src", root] + Split(module_[13..], '.'), root);
  }

  lemma NotUnderScripts(module_: string)
    requires |module_| > 1 && module_[1] == 'e'
    ensures !Under(module_, "scripts") && !StartsWith(module_, "scripts.backend_eval.")
  {
    SecondIs(module_, "scripts.");
    SecondIs(module_, "scripts.backend_eval.");
  }

  lemma SecondIs(s: string, prefix: string)
    requires |prefix| > 1
    ensures StartsWith(s, prefix) ==> |s| > 1 && s[1] == prefix[1]
  {
    if StartsWith(s, prefix) { assert s[1] == s[..|prefix|][1]; }
  }

  lemma PlaceOfTop(root: string, below: string)
    requires root == "scripts" && below == "backend_eval"
    ensures Place(root) == [root] && Place(root + "." + below) == [root, below]
  {
    var module_ := root + "." + below;
    SplitOfFree(root, '.');
    SplitOfFree(below, '.');
    SplitAppend(root, below, '.');
    assert module_ == root + ['.'] + below;
    assert module_[..|root| + 1] == root + ".";
  }

  lemma PlaceOfProduction(root: string)
    requires root == "serena_light"
    ensures Place(root) == ["src", root]
  {
    SplitOfFree(root, '.');
    NotUnderScripts(root);
    assert ["src"] + [root] == ["src", root];
  }

  ghost predicate IsPackageAt(l: Option<Location>, place: seq<string>) {
    l.Some? && l.value.package && l.value.parts == PackageFile(place)
  }

  lemma RootsFound(repo: Repository)
    ensures IsPackageAt(OwnedModuleLocation(repo, "scripts"), ["scripts"])
    ensures IsPackageAt(OwnedModuleLocation(repo, "scripts.backend_eval"), ["scripts", "backend_eval"])
  {
    assert ["scripts"] + ["__init__.py"] == ["scripts", "__init__.py"];
    assert ["scripts", "backend_eval"] + ["__init__.py"] == ["scripts", "backend_eval", "__init__.py"];
  }

  lemma ProductionRootFound(repo: Repository, module_: string)
    requires module_ == "serena_light"
    ensures IsPackageAt(OwnedModuleLocation(repo, module_), ["src", module_])
  {
    NotUnderScripts(module_);
    assert module_[1] == 'e';
    assert ["src", module_] + ["__init__.py"] == ["src", module_, "__init__.py"];
  }

  lemma ScriptsTop(repo: Repository, root: string)
    requires root == "scripts"
    ensures IsPackageAt(OwnedModuleLocation(repo, root), Place(root))
  {
    RootsFound(repo);
    PlaceOfTop(root, "backend_eval");
  }

  lemma EvaluatorTop(repo: Repository, root: string, both: string)
    requires root == "scripts" && both == root + "." + "backend_eval"
    ensures IsPackageAt(OwnedModuleLocation(repo, both), Place(both))
  {
    RootsFound(repo);
    PlaceOfTop(root, "backend_eval");
    assert both == "scripts.backend_eval";
  }

  lemma TopFound(repo: Repository, module_: string)
    requires Top(module_)
    ensures IsPackageAt(OwnedModuleLocation(repo, module_), Place(module_))
  {
    ScriptsTop(repo, "scripts");
    EvaluatorTop(repo, "scripts", "scripts" + "." + "backend_eval");
    assert "scripts" + "." + "backend_eval" == "scripts.backend_eval";
    if module_ == "serena_light" {
      PlaceOfProduction(module_);
      ProductionRootFound(repo, module_);
    }
  }

  /**
   * Which file a module is: a root is its package file; below the two owned roots a module is the
   * package file its name leads to, or else the plain file, and nothing if neither is there.
   */
  lemma LocatedExactly(repo: Repository, module_: string)
    ensures var l := OwnedModuleLocation(repo, module_);
            && (Top(module_) ==> IsPackageAt(l, Place(module_)))
            && (!Top(module_) && Inside(module_) ==> Found(repo, Place(module_), l))
            && (!Top(module_) && !Inside(module_) ==> l.None?)
  {
    if Top(module_) {
      TopFound(repo, module_);
    } else if StartsWith(module_, "scripts.backend_eval.") {
      EvaluatorFound(repo, module_, "scripts", "backend_eval");
    } else if StartsWith(module_, "serena_light.") {
      ProductionFound(repo, module_, "serena_light");
    }
  }

  // --- where a module leads -----------------------------------------------------------------

  // The statements of a located and parsed module.
  ghost predicate Reads(repo: Repository, module_: string, package: bool, nodes: seq<ImportNode>) {
    var l := OwnedModuleLocation(repo, module_);
    && l.Some? && l.value.parts in repo.files && l.value.package == package
    && repo.files[l.value.parts].Parsed? && repo.files[l.value.parts].imports == nodes
  }

  /**
   * Where a module leads. It can be taken in exactly when it is located and parsed, no statement
   * climbs above the root, and every name brought in is allowed. Then it leads exactly to its
   * parent packages, and to every owned name a statement brings in that is a module.
   */
  lemma LeadsExactly(repo: Repository, module_: string, package: bool, nodes: seq<ImportNode>)
    requires Reads(repo, module_, package, nodes)
    ensures Good(repo, module_) <==>
            && (forall i :: 0 <= i < |nodes| ==> !Misplaced(module_, package, nodes[i]))
            && (forall name :: SomeNames(module_, package, nodes, name) ==> Allowed(repo, name))
    ensures Good(repo, module_) ==>
            forall name :: name in Edges(repo, module_) <==>
              || IsParent(name, module_)
              || (SomeNames(module_, package, nodes, name) && OwnedModuleLocation(repo, name).Some?
                  && (Under(name, "scripts") || Under(name, "serena_light")))
  {
    StatementsName(module_, package, nodes);
    var imports := ImportsOf(module_, package, nodes);
    assert Imports(repo, module_) == imports;
    forall name ensures Declared(repo, name) <==> Allowed(repo, name) { AllowedIs(repo, name); }
    if imports.Some? {
      assert forall name :: name in imports.value <==> SomeNames(module_, package, nodes, name);
    }
    forall name
      ensures name in ParentPackages(module_) <==> IsParent(name, module_)
      ensures Owned(name) <==> Under(name, "scripts") || Under(name, "serena_light")
    {
      ParentsAre(module_, name);
      OwnedIs(name);
    }
  }

  // What cannot be located or parsed cannot be taken in.
  lemma UnreadIsNotGood(repo: Repository, module_: string)
    requires forall package, nodes :: !Reads(repo, module_, package, nodes)
    ensures !Good(repo, module_)
  {
    var l := OwnedModuleLocation(repo, module_);
    if l.Some? && l.value.parts in repo.files && repo.files[l.value.parts].Parsed? {
      assert Reads(repo, module_, l.value.package, repo.files[l.value.parts].imports);
    }
  }

  /**
   * The closure starts at the one module that produces receipts and takes in what a module in it
   * leads to, and nothing else.
   */
  lemma ReachedExactly(repo: Repository, module_: string)
    ensures Reachable(repo, module_) <==>
            || module_ == "scripts.backend_eval.protocol_phase"
            || exists m :: Reachable(repo, m) && module_ in Edges(repo, m)
  {
    Reachability.ReachableExactly(m => Edges(repo, m), START, module_);
  }
}
