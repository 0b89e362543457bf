/**
 * The sealed image as the finder reads it: whatever else is packed beside the closure, every
 * reachable production module is found under its own entry.
 */
module SealedFinder {
  import opened Wrappers
  import opened Text
  import opened SourceClosure
  import opened ModuleNames

  type Bindings = map<string, (string, bool)>

  // One more archive entry: a name that is read twice is bound to the later entry.
  function Bind(bindings: Bindings, entry: string): Bindings {
    var read := FinderEntry(entry);
    if read.None? then bindings else bindings[read.value.0 := (entry, read.value.1)]
  }

  function FinderOf(names: seq<string>): Bindings {
    if |names| == 0 then map[] else Bind(FinderOf(names[..|names| - 1]), names[|names| - 1])
  }

  // The loop of _BoundProductionFinder.__init__
  method BuildFinder(names: seq<string>) returns (bindings: Bindings)
    ensures bindings == FinderOf(names)
  {
    bindings := map[];
    for i := 0 to |names|
      invariant bindings == FinderOf(names[..i])
    {
      assert names[..i + 1][..i] == names[..i];
      bindings := Bind(bindings, names[i]);
    }
    assert names[..|names|] == names;
  }

  // --- what a name is bound to --------------------------------------------------------------

  ghost predicate ReadsAs(entry: string, name: string) {
    FinderEntry(entry).Some? && FinderEntry(entry).value.0 == name
  }

  // A bound name is read from its entry.
  lemma {:induction false} BoundIsRead(names: seq<string>, name: string)
    requires name in FinderOf(names)
    ensures FinderEntry(FinderOf(names)[name].0) == Some((name, FinderOf(names)[name].1))
  {
    var n := |names| - 1;
    if !ReadsAs(names[n], name) { BoundIsRead(names[..n], name); }
  }

  // The last entry read as a name is the one it is bound to.
  lemma {:induction false} LastOneBinds(names: seq<string>, k: nat, name: string)
    requires k < |names| && ReadsAs(names[k], name)
    requires forall i :: k < i < |names| ==> !ReadsAs(names[i], name)
    ensures name in FinderOf(names) && FinderOf(names)[name] == (names[k], FinderEntry(names[k]).value.1)
    decreases |names|
  {
    var n := |names| - 1;
    if k < n {
      assert forall i :: k < i < n ==> names[..n][i] == names[i];
      LastOneBinds(names[..n], k, name);
      assert !ReadsAs(names[n], name);
    }
  }

  // --- order --------------------------------------------------------------------------------

  lemma {:induction false} BelowWithin(front: string, a: string, b: string)
    requires Below(a, b)
    ensures Below(front + a, front + b)
  {
    if front == "" {
      assert front + a == a && front + b == b;
    } else {
      BelowWithin(front[1..], a, b);
      assert (front + a)[1..] == front[1..] + a && (front + b)[1..] == front[1..] + b;
    }
  }

  // The same name with dots in place of some slashes.
  ghost predicate Dotted(e: string, t: string) {
    |e| == |t| && forall i :: 0 <= i < |e| ==> e[i] == t[i] || (e[i] == '.' && t[i] == '/')
  }

  // A dot comes before a slash, so it sorts first, whatever follows.
  lemma {:induction false} DottedIsBelow(e: string, t: string, x: string, y: string)
    requires Dotted(e, t) && e != t
    ensures Below(e + x, t + y)
  {
    if e[0] == t[0] {
      assert e == [e[0]] + e[1..] && t == [t[0]] + t[1..];
      DottedIsBelow(e[1..], t[1..], x, y);
      assert (e + x)[1..] == e[1..] + x && (t + y)[1..] == t[1..] + y;
    }
  }

  lemma SameNameIsDotted(e: string, t: string)
    requires Free(t, '.') && Replace(e, '/', '.') == Replace(t, '/', '.')
    ensures Dotted(e, t)
  {
    assert |Replace(e, '/', '.')| == |e| && |Replace(t, '/', '.')| == |t|;
    forall i | 0 <= i < |e| ensures e[i] == t[i] || (e[i] == '.' && t[i] == '/') {
      assert Replace(e, '/', '.')[i] == Replace(t, '/', '.')[i];
    }
  }

  // --- the two readings of a name -----------------------------------------------------------

  function Tail(package: bool, init: string, suffix: string): string { if package then init else suffix }

  // What an entry that is read as a name looks like.
  lemma ReadEntryIs(entry: string, root: string, init: string, suffix: string, name: string, package: bool)
    requires ReadEntry(entry, root, init, suffix) == Some((name, package))
    ensures var tail := Tail(package, init, suffix);
            && EndsWith(entry, tail) && entry == DropSuffix(entry, |tail|) + tail
            && Replace(DropSuffix(entry, |tail|), '/', '.') == name
  {
  }

  lemma {:induction false} JoinFree(parts: seq<string>, sep: char, c: char)
    requires AllFree(parts, c) && sep != c
    ensures Free(Join(parts, sep), c)
  {
    if |parts| > 1 { JoinFree(parts[1..], sep, c); }
  }

  /**
   * Two entries read as one name, the first with slashes wherever the name has dots: the other
   * sorts before it, or is the same, or is the package file beside a plain one.
   */
  lemma OtherReading(
    own: string, other: string, t: string, package: bool, otherPackage: bool, init: string, suffix: string)
    requires Free(t, '.') && own == t + Tail(package, init, suffix)
    requires other == DropSuffix(other, |Tail(otherPackage, init, suffix)|) + Tail(otherPackage, init, suffix)
    requires Replace(DropSuffix(other, |Tail(otherPackage, init, suffix)|), '/', '.') == Replace(t, '/', '.')
    requires Below(suffix, init)
    ensures Below(other, own) || (!package && otherPackage && other == t + init)
  {
    var e := DropSuffix(other, |Tail(otherPackage, init, suffix)|);
    SameNameIsDotted(e, t);
    if e != t {
      DottedIsBelow(e, t, Tail(otherPackage, init, suffix), Tail(package, init, suffix));
    } else if package == otherPackage {
      BelowReflexive(own);
    } else if package {
      BelowWithin(t, suffix, init);
    }
  }

  lemma {:induction false} BelowReflexive(s: string)
    ensures Below(s, s)
  {
    if s != "" { BelowReflexive(s[1..]); }
  }

  // --- the sealed image ---------------------------------------------------------------------

  predicate ProductionEntry(entry: string) { StartsWith(entry, "serena_light/") }

  /**
   * What the image packs: at least the closure, and any other production sources of the owner's
   * tree, such as the declared helpers, in sorted order; what else it packs is not production.
   */
  ghost predicate Packed(repo: Repository, entries: map<string, string>, names: seq<string>) {
    && (forall a :: a in entries ==> a in names)
    && (forall i :: 0 <= i < |names| && ProductionEntry(names[i]) ==>
          exists parts :: parts in repo.files && |parts| > 1 && parts[0] == "src" && names[i] == Join(parts[1..], '/'))
    && (forall i, j :: 0 <= i < j < |names| && ProductionEntry(names[i]) && ProductionEntry(names[j]) ==>
          Below(names[i], names[j]) && names[i] != names[j])
  }

  /**
   * The names _build_protocol_source_image writes: the main program, then in sorted order the
   * closure, the declared helpers, which are production files of the tree, and others.
   */
  ghost predicate ImageNames(
    repo: Repository, entries: map<string, string>, helpers: set<seq<string>>, others: set<string>, names: seq<string>)
  {
    && (forall h :: h in helpers ==> h in repo.files && |h| > 2 && h[0] == "src" && h[1] == "serena_light")
    && (forall a :: a in others ==> !ProductionEntry(a))
    && |names| > 0 && names[0] == "__main__.py" && Sorted(names[1..]) && Distinct(names[1..])
    && (forall a :: a in names[1..] <==>
          a in entries || a in others || exists h :: h in helpers && a == Join(h[1..], '/'))
  }

  lemma ImageIsPacked(
    repo: Repository, closure: Closure, helpers: set<seq<string>>, others: set<string>, names: seq<string>)
    requires repo.Valid() && IsClosure(repo, closure) && closure.Sealed?
    requires ImageNames(repo, closure.entries, helpers, others, names)
    ensures Packed(repo, closure.entries, names)
  {
    var rest := names[1..];
    assert forall i :: 1 <= i < |names| ==> names[i] == rest[i - 1];
    assert !ProductionEntry(names[0]) by { assert names[0][0] == '_'; }
    forall i | 0 <= i < |names| && ProductionEntry(names[i])
      ensures exists parts ::
                parts in repo.files && |parts| > 1 && parts[0] == "src" && names[i] == Join(parts[1..], '/')
    {
      assert names[i] in rest && names[i] !in others;
      if names[i] in closure.entries { EntryIsAFile(repo, closure, names[i]); }
    }
  }

  lemma EntryIsAFile(repo: Repository, closure: Closure, entry: string)
    requires repo.Valid() && IsClosure(repo, closure) && closure.Sealed?
    requires entry in closure.entries && ProductionEntry(entry)
    ensures exists parts :: parts in repo.files && |parts| > 1 && parts[0] == "src" && entry == Join(parts[1..], '/')
  {
    var m :| Reachable(repo, m) && EntryOf(repo, m) == (entry, closure.entries[entry]);
    ArchiveIsPath(repo, m);
    var parts := OwnedModuleLocation(repo, m).value.parts;
    assert parts in repo.files && OwnedPath(parts);
    if parts[0] == "scripts" { ScriptsAreNotProduction(parts, parts[0]); }
  }

  lemma SecondChar(s: string, prefix: string)
    requires |prefix| > 1
    ensures StartsWith(s, prefix) ==> |s| > 1 && s[1] == prefix[1]
  {
    if StartsWith(s, prefix) { assert s[1] == s[..|prefix|][1]; }
  }

  lemma ScriptsAreNotProduction(parts: seq<string>, root: string)
    requires |parts| > 1 && parts[0] == root && root == "scripts"
    ensures !ProductionEntry(Join(parts, '/'))
  {
    JoinStarts(parts, root);
    SecondChar(Join(parts, '/'), root + "/");
    SecondChar(Join(parts, '/'), "serena_light/");
  }

  // A module whose package file is there is located as a package.
  lemma PackageEntryIsPackage(repo: Repository, module_: string, parts: seq<string>, stem: string, suffix: string)
    requires repo.Valid() && Production(module_) && OwnedModuleLocation(repo, module_).Some?
    requires stem == "__init__" && suffix == ".py"
    requires parts in repo.files && |parts| > 1 && parts[0] == "src"
    requires Join(parts[1..], '/') == Join(PartsWith(Split(module_, '.'), true, stem, suffix), '/')
    ensures OwnedModuleLocation(repo, module_).value.package
  {
    LocatedFile(repo, module_, stem, suffix);
    PackageFileIsThere(repo, Split(module_, '.'), parts, stem, suffix);
    PackageIsPreferred(repo, module_, stem, suffix);
  }

  lemma PackageFileIsThere(
    repo: Repository, segments: seq<string>, parts: seq<string>, stem: string, suffix: string)
    requires repo.Valid() && |segments| > 0 && AllFree(segments, '/') && stem == "__init__" && suffix == ".py"
    requires parts in repo.files && |parts| > 1 && parts[0] == "src"
    requires Join(parts[1..], '/') == Join(PartsWith(segments, true, stem, suffix), '/')
    ensures ["src"] + PartsWith(segments, true, stem, suffix) in repo.files
  {
    PackagePartsAreFree(segments, stem, suffix);
    FilePartsAreFree(repo, parts);
    SameJoinSameParts(parts[1..], PartsWith(segments, true, stem, suffix));
    assert parts == ["src"] + parts[1..];
  }

  lemma FilePartsAreFree(repo: Repository, parts: seq<string>)
    requires repo.Valid() && parts in repo.files && |parts| > 1
    ensures AllFree(parts[1..], '/')
  {
    forall i | 0 <= i < |parts[1..]| ensures Free(parts[1..][i], '/') { assert Component(parts[i + 1]); }
  }

  lemma SameJoinSameParts(a: seq<string>, b: seq<string>)
    requires |a| > 0 && |b| > 0 && AllFree(a, '/') && AllFree(b, '/') && Join(a, '/') == Join(b, '/')
    ensures a == b
  {
    SplitJoin(a, '/');
    SplitJoin(b, '/');
  }

  lemma PackagePartsAreFree(segments: seq<string>, stem: string, suffix: string)
    requires |segments| > 0 && AllFree(segments, '/') && stem == "__init__" && suffix == ".py"
    ensures AllFree(PartsWith(segments, true, stem, suffix), '/') && |PartsWith(segments, true, stem, suffix)| > 1
  {
    var init := stem + suffix;
    assert Free(init, '/');
  }

  lemma PreferredAt(repo: Repository, parts: seq<string>, root: string)
    requires |parts| >= 2 && parts + ["__init__.py"] in repo.files
    ensures ModuleFileLocation(repo, parts, root).Some? && ModuleFileLocation(repo, parts, root).value.package
  {
  }

  lemma PreferredBelow(repo: Repository, root: string, below: string)
    requires root == "serena_light" && ["src"] + FileParts([root] + Split(below, '.'), true) in repo.files
    ensures ProductionLocation(repo, below).Some? && ProductionLocation(repo, below).value.package
  {
    var parts := ["src", root] + Split(below, '.');
    assert parts + ["__init__.py"] == ["src"] + FileParts([root] + Split(below, '.'), true);
    PreferredAt(repo, parts, root);
  }

  lemma PackageIsPreferred(repo: Repository, module_: string, stem: string, suffix: string)
    requires Production(module_) && OwnedModuleLocation(repo, module_).Some?
    requires stem == "__init__" && suffix == ".py"
    requires ["src"] + PartsWith(Split(module_, '.'), true, stem, suffix) in repo.files
    ensures OwnedModuleLocation(repo, module_).value.package
  {
    FilePartsWith(Split(module_, '.'), true, stem, suffix);
    if StartsWith(module_, "serena_light.") {
      ProductionIsBelow(repo, module_);
      ProductionSplits(module_);
      SegmentsBelow(module_[..12], module_[13..]);
      PreferredBelow(repo, module_[..12], module_[13..]);
    }
  }

  // The pieces the finder puts its readings together from.
  lemma FinderPieces(stem: string, suffix: string, init: string)
    requires stem == "__init__" && suffix == ".py" && init == "/__init__.py"
    ensures init == "/" + (stem + suffix) && Below(suffix, init)
  {
    assert suffix[0] < init[0];
  }

  // The entry of a located module, as its name with slashes and a tail.
  lemma OwnEntry(repo: Repository, module_: string, stem: string, suffix: string, init: string)
    requires repo.Valid() && Production(module_) && OwnedModuleLocation(repo, module_).Some?
    requires stem == "__init__" && suffix == ".py" && init == "/__init__.py"
    ensures var l, t := OwnedModuleLocation(repo, module_).value, Join(Split(module_, '.'), '/');
            && l.archive == t + Tail(l.package, init, suffix) && Free(t, '.') && Replace(t, '/', '.') == module_
            && t + init == Join(PartsWith(Split(module_, '.'), true, stem, suffix), '/')
  {
    var l, segments := OwnedModuleLocation(repo, module_).value, Split(module_, '.');
    LocatedFile(repo, module_, stem, suffix);
    FinderPieces(stem, suffix, init);
    PathOf(segments, l.package, stem, suffix, init);
    PathOf(segments, true, stem, suffix, init);
    NameWithSlashes(module_, segments);
  }

  lemma PathOf(segments: seq<string>, package: bool, stem: string, suffix: string, init: string)
    requires |segments| > 0 && init == "/" + (stem + suffix)
    ensures Join(PartsWith(segments, package, stem, suffix), '/') == Join(segments, '/') + Tail(package, init, suffix)
  {
    if package {
      JoinLast(segments, stem + suffix);
    } else {
      JoinSuffix(segments, suffix, '/');
    }
  }

  lemma NameWithSlashes(module_: string, segments: seq<string>)
    requires segments == Split(module_, '.') && AllFree(segments, '/')
    ensures Free(Join(segments, '/'), '.') && Replace(Join(segments, '/'), '/', '.') == module_
  {
    SplitFree(module_, '.');
    JoinFree(segments, '/', '.');
    ReplaceJoin(segments, '/', '.');
    JoinSplit(module_, '.');
  }

  lemma LaterIsNotRead(
    repo: Repository, module_: string, other: string, stem: string, suffix: string, init: string)
    requires repo.Valid() && Production(module_) && OwnedModuleLocation(repo, module_).Some?
    requires stem == "__init__" && suffix == ".py" && init == "/__init__.py"
    requires ReadsAs(other, module_)
    requires exists parts :: parts in repo.files && |parts| > 1 && parts[0] == "src" && other == Join(parts[1..], '/')
    ensures Below(other, OwnedModuleLocation(repo, module_).value.archive)
  {
    var l, t := OwnedModuleLocation(repo, module_).value, Join(Split(module_, '.'), '/');
    OwnEntry(repo, module_, stem, suffix, init);
    FinderPieces(stem, suffix, init);
    var package := FinderEntry(other).value.1;
    ReadEntryIs(other, "serena_light/", init, suffix, module_, package);
    OtherReading(l.archive, other, t, l.package, package, init, suffix);
    var parts :| parts in repo.files && |parts| > 1 && parts[0] == "src" && other == Join(parts[1..], '/');
    if other == t + init { PackageEntryIsPackage(repo, module_, parts, stem, suffix); }
  }

  lemma LaterEntriesAreOthers(
    repo: Repository, entries: map<string, string>, names: seq<string>, k: nat, module_: string)
    requires repo.Valid() && Packed(repo, entries, names) && k < |names|
    requires Production(module_) && OwnedModuleLocation(repo, module_).Some?
    requires names[k] == OwnedModuleLocation(repo, module_).value.archive && ReadsAs(names[k], module_)
    ensures forall i :: k < i < |names| ==> !ReadsAs(names[i], module_)
  {
    forall i | k < i < |names| ensures !ReadsAs(names[i], module_) {
      if ReadsAs(names[i], module_) {
        LaterIsNotRead(repo, module_, names[i], "__init__", ".py", "/__init__.py");
        BelowAntisymmetric(names[k], names[i]);
      }
    }
  }

  /**
   * Closure and finder together. In a sealed image, whatever else it packs, the finder binds a
   * reachable production module to its own entry and package flag, with the module's own bytes,
   * exactly unless it is a plain file named `__init__`. It rests on the order of the entries: a
   * file `a.py` beside a package `a`, or `a.b.py` beside `a/b.py`, is read under the same name
   * and loses because it sorts first.
   */
  lemma FinderBindsReachable(repo: Repository, closure: Closure, names: seq<string>, module_: string)
    requires repo.Valid() && IsClosure(repo, closure) && closure.Sealed? && Packed(repo, closure.entries, names)
    requires Reachable(repo, module_) && Production(module_)
    ensures OwnedModuleLocation(repo, module_).Some? && FileOf(repo, module_).Some?
    ensures var l := OwnedModuleLocation(repo, module_).value;
            && l.archive in closure.entries
            && FileOf(repo, module_).value.Parsed? && closure.entries[l.archive] == FileOf(repo, module_).value.bytes
            && (module_ in FinderOf(names) && FinderOf(names)[module_] == (l.archive, l.package)
                <==> !NamesInitFile(module_, l.package))
  {
    assert Good(repo, module_) && EntryOf(repo, module_) in closure.entries.Items;
    var l := OwnedModuleLocation(repo, module_).value;
    FinderRoundTrip(repo, module_);
    if NamesInitFile(module_, l.package) {
      if module_ in FinderOf(names) { BoundIsRead(names, module_); }
    } else {
      var k :| 0 <= k < |names| && names[k] == l.archive;
      LaterEntriesAreOthers(repo, closure.entries, names, k, module_);
      LastOneBinds(names, k, module_);
    }
  }
}
