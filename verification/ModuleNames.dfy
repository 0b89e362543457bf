/** Module names to archive entries and back, through both readers of the sealed image. */
module ModuleNames {
  import opened Wrappers
  import opened Text
  import opened SourceClosure

  // str.replace of one character by another.
  function Replace(s: string, from: char, to: char): string {
    seq(|s|, i requires 0 <= i < |s| => if s[i] == from then to else s[i])
  }

  // The sealed finder's reading of one archive entry: module name and package flag.
  function FinderEntry(entry: string): Option<(string, bool)> {
    ReadEntry(entry, "serena_light/", "/__init__.py", ".py")
  }

  function ReadEntry(entry: string, root: string, init: string, suffix: string): Option<(string, bool)> {
    if !StartsWith(entry, root) || !EndsWith(entry, suffix) then None
    else if EndsWith(entry, init) then Some((Replace(DropSuffix(entry, |init|), '/', '.'), true))
    else Some((Replace(DropSuffix(entry, |suffix|), '/', '.'), false))
  }

  // The child's reading of one production path (_module_name).
  function ChildModuleName(relative: string): Option<(string, bool)> {
    if !StartsWith(relative, "src/") || !EndsWith(relative, ".py") then None
    else
      var parts := Split(relative[4..], '/');
      if parts[0] != "serena_light" ||
          (exists i :: 0 <= i < |parts| && (parts[i] == "" || parts[i] == "." || parts[i] == "..")) then None
      else ReadParts(parts, "__init__.py", 3)
  }

  function ReadParts(parts: seq<string>, init: string, suffix: nat): Option<(string, bool)>
    requires |parts| > 0
  {
    if parts[|parts| - 1] == init then Some((Join(parts[..|parts| - 1], '.'), true))
    else Some((DropSuffix(Join(parts, '.'), suffix), false))
  }

  predicate Production(module_: string) { module_ == "serena_light" || StartsWith(module_, "serena_light.") }

  // The name is a module file called __init__, such as serena_light.__init__.
  predicate NamesInitFile(module_: string, package: bool) {
    var parts := Split(module_, '.');
    !package && parts[|parts| - 1] == "__init__"
  }

  lemma {:induction false} ReplaceJoin(parts: seq<string>, from: char, to: char)
    requires AllFree(parts, from)
    ensures Replace(Join(parts, from), from, to) == Join(parts, to)
  {
    if |parts| > 1 {
      ReplaceJoin(parts[1..], from, to);
    }
  }

  lemma EndsWithAppend(s: string, suffix: string)
    ensures EndsWith(s + suffix, suffix) && DropSuffix(s + suffix, |suffix|) == s
  {
  }

  // The path components of a production module's file, without "src".
  function FileParts(segments: seq<string>, package: bool): seq<string>
    requires |segments| > 0
  {
    var n := |segments| - 1;
    if package then segments + ["__init__.py"] else segments[..n] + [segments[n] + ".py"]
  }

  lemma SegmentsBelow(root: string, below: string)
    requires Free(root, '.')
    ensures Split(root + "." + below, '.') == [root] + Split(below, '.')
  {
    SplitOfFree(root, '.');
    SplitAppend(root, below, '.');
  }

  lemma LocatedBelow(repo: Repository, segments: seq<string>, root: string)
    requires |segments| > 1 && ModuleFileLocation(repo, ["src"] + segments, root).Some?
    ensures var l := ModuleFileLocation(repo, ["src"] + segments, root).value;
            l.parts == ["src"] + FileParts(segments, l.package)
  {
    var parts := ["src"] + segments;
    assert parts + ["__init__.py"] == ["src"] + FileParts(segments, true);
    assert parts[..|parts| - 1] + [parts[|parts| - 1] + ".py"] == ["src"] + FileParts(segments, false);
  }

  lemma LocatedPartsBelow(repo: Repository, root: string, below: string)
    requires root == "serena_light" && ProductionLocation(repo, below).Some?
    ensures var l := ProductionLocation(repo, below).value;
            var segments := Split(root + "." + below, '.');
            && segments[0] == root && |segments| > 1
            && l.parts == ["src"] + FileParts(segments, l.package)
  {
    SegmentsBelow(root, below);
    var segments := [root] + Split(below, '.');
    assert ["src", root] + Split(below, '.') == ["src"] + segments;
    LocatedBelow(repo, segments, root);
  }

  lemma ProductionIsBelow(repo: Repository, module_: string)
    requires StartsWith(module_, "serena_light.")
    ensures OwnedModuleLocation(repo, module_) == ProductionLocation(repo, module_[13..])
  {
    assert module_[1] == module_[..13][1] == 'e';
  }

  lemma ProductionSplits(module_: string)
    requires StartsWith(module_, "serena_light.")
    ensures module_ == module_[..12] + "." + module_[13..] && module_[..12] == "serena_light"
  {
    assert module_[12] == module_[..13][12] == '.';
    assert module_[..12] == module_[..13][..12];
  }

  ghost predicate Laid(module_: string, l: Location) {
    var segments := Split(module_, '.');
    && |module_| >= 12 && segments[0] == module_[..12] && (!l.package ==> |segments| > 1)
    && l.parts == ["src"] + FileParts(segments, l.package)
  }

  lemma LaidTop(module_: string, l: Location)
    requires |module_| == 12 && Free(module_, '.') && l.package && l.parts == ["src", module_, "__init__.py"]
    ensures Laid(module_, l)
  {
    SplitOfFree(module_, '.');
    assert ["src"] + ([module_] + ["__init__.py"]) == ["src", module_, "__init__.py"];
  }

  // A production module's file, from the segments of its name.
  lemma LocatedParts(repo: Repository, module_: string)
    requires Production(module_) && OwnedModuleLocation(repo, module_).Some?
    ensures Laid(module_, OwnedModuleLocation(repo, module_).value)
  {
    if StartsWith(module_, "serena_light.") {
      ProductionIsBelow(repo, module_);
      ProductionSplits(module_);
      LocatedPartsBelow(repo, module_[..12], module_[13..]);
    } else {
      LaidTop(module_, OwnedModuleLocation(repo, module_).value);
    }
  }

  // --- the sealed finder --------------------------------------------------------------------

  lemma JoinStarts(parts: seq<string>, root: string)
    requires |parts| > 1 && parts[0] == root
    ensures StartsWith(Join(parts, '/'), root + "/")
  {
  }

  lemma EndsWithTail(s: string, tail: string, suffix: string)
    requires EndsWith(tail, suffix)
    ensures EndsWith(s + tail, suffix)
  {
    assert (s + tail)[|s + tail| - |suffix|..] == tail[|tail| - |suffix|..];
  }

  lemma SlashAssociates(a: string, b: string)
    ensures a + ['/'] + b == a + ("/" + b)
    ensures a + "/" + b == a + ("/" + b)
  {
  }

  lemma JoinLast(segments: seq<string>, last: string)
    requires |segments| > 0
    ensures Join(segments + [last], '/') == Join(segments, '/') + ("/" + last)
  {
    JoinAppend(segments, [last], '/');
    SlashAssociates(Join(segments, '/'), last);
  }

  // An entry that names a package's own file.
  lemma ReadPackage(segments: seq<string>, tail: string, suffix: string)
    requires |segments| > 0 && AllFree(segments, '/') && EndsWith(tail, suffix)
    ensures ReadEntry(Join(segments + [tail], '/'), segments[0] + "/", "/" + tail, suffix) ==
            Some((Join(segments, '.'), true))
  {
    JoinStarts(segments + [tail], segments[0]);
    JoinLast(segments, tail);
    EndsWithAppend(Join(segments, '/'), "/" + tail);
    SlashAssociates(Join(segments, '/'), tail);
    EndsWithTail(Join(segments, '/') + "/", tail, suffix);
    ReplaceJoin(segments, '/', '.');
  }

  lemma LastComponent(segments: seq<string>)
    requires |segments| > 1
    ensures Join(segments, '/') == Join(segments[..|segments| - 1], '/') + ("/" + segments[|segments| - 1])
  {
    var n := |segments| - 1;
    JoinLast(segments[..n], segments[n]);
    assert segments == segments[..n] + [segments[n]];
  }

  lemma SplitLast(segments: seq<string>, front: string, last: string)
    requires |segments| > 1 && AllFree(segments, '/') && Free(last, '/') && Join(segments, '/') == front + ['/'] + last
    ensures segments[|segments| - 1] == last
  {
    SplitAppend(front, last, '/');
    SplitOfFree(last, '/');
    SplitJoin(segments, '/');
  }

  // A joined path ends in one more component exactly when that is its last one.
  lemma EndsInComponent(segments: seq<string>, last: string)
    requires |segments| > 1 && AllFree(segments, '/') && Free(last, '/')
    ensures EndsWith(Join(segments, '/'), "/" + last) <==> segments[|segments| - 1] == last
  {
    var path := Join(segments, '/');
    LastComponent(segments);
    EndsWithAppend(Join(segments[..|segments| - 1], '/'), "/" + segments[|segments| - 1]);
    if EndsWith(path, "/" + last) {
      var front := path[..|path| - |"/" + last|];
      assert path == front + ("/" + last) == front + ['/'] + last;
      SplitLast(segments, front, last);
    }
  }

  lemma EndsWithLonger(s: string, end: string, suffix: string)
    ensures EndsWith(s + suffix, end + suffix) <==> EndsWith(s, end)
  {
    if |end| <= |s| {
      assert (s + suffix)[|s + suffix| - |end + suffix|..] == s[|s| - |end|..] + suffix;
      var cut := s[|s| - |end|..];
      assert cut + suffix == end + suffix ==> (cut + suffix)[..|cut|] == (end + suffix)[..|end|];
    }
  }

  // An entry that names a module file; only the stem `init` is read as a package.
  lemma ReadModule(segments: seq<string>, init: string, suffix: string)
    requires |segments| > 1 && AllFree(segments, '/') && Free(init, '/')
    ensures var read := ReadEntry(Join(segments, '/') + suffix, segments[0] + "/", "/" + init + suffix, suffix);
            && read.Some? && (read.value.1 <==> segments[|segments| - 1] == init)
            && (!read.value.1 ==> read.value.0 == Join(segments, '.'))
  {
    var path := Join(segments, '/');
    JoinStarts(segments, segments[0]);
    assert (path + suffix)[..|segments[0] + "/"|] == path[..|segments[0] + "/"|];
    EndsWithAppend(path, suffix);
    EndsInComponent(segments, init);
    EndsWithLonger(path, "/" + init, suffix);
    ReplaceJoin(segments, '/', '.');
  }

  // --- both readers -------------------------------------------------------------------------

  lemma PartsAreComponents(repo: Repository, module_: string)
    requires repo.Valid() && Production(module_) && OwnedModuleLocation(repo, module_).Some?
    ensures forall part :: part in OwnedModuleLocation(repo, module_).value.parts ==> Component(part)
  {
    if StartsWith(module_, "serena_light.") {
      ProductionIsBelow(repo, module_);
    } else {
      TopParts(OwnedModuleLocation(repo, module_).value.parts);
    }
  }

  lemma TopParts(parts: seq<string>)
    requires |parts| == 3 && parts[0] == "src" && parts[1] == "serena_light" && parts[2] == "__init__.py"
    ensures forall part :: part in parts ==> Component(part)
  {
    assert Component(parts[0]) && Component(parts[1]) && Component(parts[2]);
  }

  lemma SegmentsAreFree(segments: seq<string>, package: bool)
    requires |segments| > 0 && forall part :: part in FileParts(segments, package) ==> Component(part)
    ensures AllFree(segments, '/')
  {
    var parts := FileParts(segments, package);
    forall i | 0 <= i < |segments| ensures Free(segments[i], '/') {
      assert parts[i] in parts;
      assert forall k :: 0 <= k < |segments[i]| ==> segments[i][k] == parts[i][k];
    }
  }

  // The child's reading of the components of a file, suffix and init name left as parameters.
  lemma ReadPartsOf(segments: seq<string>, package: bool, stem: string, suffix: string)
    requires |segments| > 0
    ensures var read := ReadParts(PartsWith(segments, package, stem, suffix), stem + suffix, |suffix|);
            read == Some((Join(segments, '.'), package)) <==> (package || segments[|segments| - 1] != stem)
  {
    var n := |segments| - 1;
    if package {
      assert (segments + [stem + suffix])[..n + 1] == segments;
    } else {
      JoinSuffix(segments, suffix, '.');
      EndsWithAppend(Join(segments, '.'), suffix);
      assert segments[n] + suffix == stem + suffix ==>
          (segments[n] + suffix)[..|segments[n]|] == (stem + suffix)[..|stem|];
    }
  }

  // The two literals of the finder, from their pieces.
  lemma FinderIs(entry: string, root: string, stem: string, suffix: string)
    requires root == "serena_light" && stem == "__init__" && suffix == ".py"
    ensures FinderEntry(entry) == ReadEntry(entry, root + "/", "/" + stem + suffix, suffix)
    ensures "/" + stem + suffix == "/" + (stem + suffix) && stem + suffix == "__init__.py" &&
            EndsWith(stem + suffix, suffix)
  {
    assert root + "/" == "serena_light/";
    assert "/" + stem + suffix == "/__init__.py";
  }

  // Names and files with the package stem and the suffix left as parameters.
  function PartsWith(segments: seq<string>, package: bool, stem: string, suffix: string): seq<string>
    requires |segments| > 0
  {
    var n := |segments| - 1;
    if package then segments + [stem + suffix] else segments[..n] + [segments[n] + suffix]
  }

  lemma ReadEntryOf(segments: seq<string>, package: bool, stem: string, suffix: string)
    requires |segments| > 0 && AllFree(segments, '/') && Free(stem, '/') && (!package ==> |segments| > 1)
    requires EndsWith(stem + suffix, suffix) && "/" + stem + suffix == "/" + (stem + suffix)
    ensures var entry := Join(PartsWith(segments, package, stem, suffix), '/');
            var read := ReadEntry(entry, segments[0] + "/", "/" + stem + suffix, suffix);
            read == Some((Join(segments, '.'), package)) <==> (package || segments[|segments| - 1] != stem)
  {
    if package {
      ReadPackage(segments, stem + suffix, suffix);
    } else {
      ReadModule(segments, stem, suffix);
      JoinSuffix(segments, suffix, '/');
    }
  }

  lemma FinderReads(
    entry: string, segments: seq<string>, package: bool, stem: string, suffix: string, result: Option<(string, bool)>)
    requires |segments| > 0 && AllFree(segments, '/') && segments[0] == "serena_light" && (!package ==> |segments| > 1)
    requires stem == "__init__" && suffix == ".py"
    requires entry == Join(PartsWith(segments, package, stem, suffix), '/') &&
            result == Some((Join(segments, '.'), package))
    ensures FinderEntry(entry) == result <==> (package || segments[|segments| - 1] != stem)
  {
    FinderIs(entry, segments[0], stem, suffix);
    ReadEntryOf(segments, package, stem, suffix);
  }

  lemma FilePartsWith(segments: seq<string>, package: bool, stem: string, suffix: string)
    requires |segments| > 0 && stem == "__init__" && suffix == ".py"
    ensures FileParts(segments, package) == PartsWith(segments, package, stem, suffix)
  {
    assert stem + suffix == "__init__.py";
  }

  ghost predicate InFile(segments: seq<string>, l: Location, stem: string, suffix: string) {
    && |segments| > 0 && AllFree(segments, '/') && (!l.package ==> |segments| > 1)
    && ArchiveParts(l.parts) == PartsWith(segments, l.package, stem, suffix)
    && l.archive == Join(PartsWith(segments, l.package, stem, suffix), '/')
  }

  lemma LaidInFile(module_: string, l: Location, stem: string, suffix: string)
    requires Laid(module_, l) && ArchiveAgrees(l) && stem == "__init__" && suffix == ".py"
    requires forall part :: part in l.parts ==> Component(part)
    ensures InFile(Split(module_, '.'), l, stem, suffix)
  {
    var segments := Split(module_, '.');
    FilePartsWith(segments, l.package, stem, suffix);
    assert ArchiveParts(l.parts) == l.parts[1..] == FileParts(segments, l.package);
    SegmentsAreFree(segments, l.package);
  }

  lemma ProductionRootIs(module_: string)
    requires Production(module_)
    ensures |module_| >= 12 && module_[..12] == "serena_light"
  {
    if StartsWith(module_, "serena_light.") { ProductionSplits(module_); }
  }

  // The file of a located production module.
  lemma LocatedFile(repo: Repository, module_: string, stem: string, suffix: string)
    requires repo.Valid() && Production(module_) && OwnedModuleLocation(repo, module_).Some?
    requires stem == "__init__" && suffix == ".py"
    ensures InFile(Split(module_, '.'), OwnedModuleLocation(repo, module_).value, stem, suffix)
    ensures Split(module_, '.')[0] == "serena_light" && Join(Split(module_, '.'), '.') == module_
  {
    var l := OwnedModuleLocation(repo, module_).value;
    LocatedParts(repo, module_);
    PartsAreComponents(repo, module_);
    ArchiveIsPath(repo, module_);
    LaidInFile(module_, l, stem, suffix);
    JoinSplit(module_, '.');
    ProductionRootIs(module_);
  }

  /**
   * Round trip through the sealed finder. A production module located in any repository is read
   * back from its archive entry under the same name and the same package flag, exactly unless
   * its name says `__init__` for a plain module file.
   */
  lemma FinderRoundTrip(repo: Repository, module_: string)
    requires repo.Valid() && Production(module_) && OwnedModuleLocation(repo, module_).Some?
    ensures var l := OwnedModuleLocation(repo, module_).value;
            FinderEntry(l.archive) == Some((module_, l.package)) <==> !NamesInitFile(module_, l.package)
  {
    var l := OwnedModuleLocation(repo, module_).value;
    var stem, suffix := "__init__", ".py";
    LocatedFile(repo, module_, stem, suffix);
    FinderReads(l.archive, Split(module_, '.'), l.package, stem, suffix, Some((module_, l.package)));
  }

  lemma ChildReads(relative: string, archive: string, parts: seq<string>, init: string, suffix: string)
    requires relative == "src/" + archive && Split(archive, '/') == parts && EndsWith(archive, suffix)
    requires init == "__init__.py" && suffix == ".py"
    requires parts[0] == "serena_light" && forall part :: part in parts ==> Component(part)
    ensures ChildModuleName(relative) == ReadParts(parts, init, |suffix|)
  {
    assert relative[..4] == "src/" && relative[4..] == archive;
    EndsWithTail("src/", archive, suffix);
    assert forall i :: 0 <= i < |parts| ==> parts[i] in parts;
  }

  lemma {:induction false} JoinEnds(parts: seq<string>, suffix: string)
    requires |parts| > 0 && EndsWith(parts[|parts| - 1], suffix)
    ensures EndsWith(Join(parts, '/'), suffix)
  {
    if |parts| > 1 {
      JoinEnds(parts[1..], suffix);
      EndsWithTail(parts[0] + ['/'], Join(parts[1..], '/'), suffix);
    }
  }

  lemma PartsWithEnds(segments: seq<string>, package: bool, stem: string, suffix: string)
    requires |segments| > 0
    ensures var parts := PartsWith(segments, package, stem, suffix);
            EndsWith(parts[|parts| - 1], suffix) && (package || |segments| > 1 ==> parts[0] == segments[0])
  {
    EndsWithAppend(stem, suffix);
    EndsWithAppend(segments[|segments| - 1], suffix);
  }

  lemma SplitPartsWith(segments: seq<string>, package: bool, stem: string, suffix: string)
    requires |segments| > 0 && forall part :: part in PartsWith(segments, package, stem, suffix) ==> Component(part)
    ensures Split(Join(PartsWith(segments, package, stem, suffix), '/'), '/') ==
            PartsWith(segments, package, stem, suffix)
    ensures EndsWith(Join(PartsWith(segments, package, stem, suffix), '/'), suffix)
  {
    var parts := PartsWith(segments, package, stem, suffix);
    PartsWithEnds(segments, package, stem, suffix);
    JoinEnds(parts, suffix);
    forall i | 0 <= i < |parts| ensures Free(parts[i], '/') { assert parts[i] in parts; }
    SplitJoin(parts, '/');
  }

  lemma ChildReadsParts(
    relative: string, archive: string, parts: seq<string>, segments: seq<string>, package: bool,
    stem: string, suffix: string, init: string, result: Option<(string, bool)>)
    requires relative == "src/" + archive && result == Some((Join(segments, '.'), package))
    requires suffix == ".py" && init == "__init__.py" && init == stem + suffix
    requires |segments| > 0 && parts == PartsWith(segments, package, stem, suffix)
    requires Split(archive, '/') == parts && EndsWith(archive, suffix) && parts[0] == "serena_light"
    requires forall part :: part in parts ==> Component(part)
    ensures ChildModuleName(relative) == result <==> (package || segments[|segments| - 1] != stem)
  {
    ChildReads(relative, archive, parts, init, suffix);
    ReadPartsOf(segments, package, stem, suffix);
  }

  lemma ChildReadsFile(
    relative: string, l: Location, segments: seq<string>, stem: string, suffix: string, init: string,
    result: Option<(string, bool)>)
    requires relative == "src/" + l.archive && result == Some((Join(segments, '.'), l.package))
    requires suffix == ".py" && init == "__init__.py" && init == stem + suffix && InFile(segments, l, stem, suffix)
    requires segments[0] == "serena_light"
    requires forall part :: part in ArchiveParts(l.parts) ==> Component(part)
    ensures ChildModuleName(relative) == result <==> (l.package || segments[|segments| - 1] != stem)
  {
    SplitPartsWith(segments, l.package, stem, suffix);
    PartsWithEnds(segments, l.package, stem, suffix);
    ChildReadsParts(relative, l.archive, ArchiveParts(l.parts), segments, l.package, stem, suffix, init, result);
  }

  lemma InitPieces() returns (stem: string, suffix: string, init: string)
    ensures stem == "__init__" && suffix == ".py" && init == "__init__.py" && init == stem + suffix
  {
    stem, suffix, init := "__init__", ".py", "__init__.py";
  }

  // Round trip through the production child, which reads the path with its "src/" prefix.
  lemma ChildRoundTrip(repo: Repository, module_: string)
    requires repo.Valid() && Production(module_) && OwnedModuleLocation(repo, module_).Some?
    ensures var l := OwnedModuleLocation(repo, module_).value;
            ChildModuleName("src/" + l.archive) == Some((module_, l.package)) <==> !NamesInitFile(module_, l.package)
  {
    var l := OwnedModuleLocation(repo, module_).value;
    var stem, suffix, init := InitPieces();
    LocatedFile(repo, module_, stem, suffix);
    PartsAreComponents(repo, module_);
    ChildReadsFile("src/" + l.archive, l, Split(module_, '.'), stem, suffix, init, Some((module_, l.package)));
  }

  // The failing family is real: wherever the package file exists and no package is called
  // `__init__`, the name with that one segment is located as a plain module file.
  lemma InitFileIsLocated(repo: Repository, root: string, stem: string)
    requires root == "serena_light" && stem == "__init__"
    requires ["src", root, stem + ".py"] in repo.files && ["src", root, stem, "__init__.py"] !in repo.files
    ensures var l := ProductionLocation(repo, stem);
            l.Some? && NamesInitFile(root + "." + stem, l.value.package)
  {
    SplitOfFree(stem, '.');
    SegmentsBelow(root, stem);
    assert ["src", root] + [stem] + ["__init__.py"] == ["src", root, stem, "__init__.py"];
    assert (["src", root] + [stem])[..2] + [stem + ".py"] == ["src", root, stem + ".py"];
  }

  // --- what the child reads -----------------------------------------------------------------

  // The path of a source file below src/serena_light, and its components.
  ghost predicate SourcePath(relative: string, parts: seq<string>) {
    && |parts| > 0 && parts[0] == "serena_light" && (forall i :: 0 <= i < |parts| ==> Component(parts[i]))
    && relative == "src/" + Join(parts, '/') && EndsWith(relative, ".py")
  }

  // A package file names its directory, any other file itself without its suffix.
  ghost predicate Names(parts: seq<string>, name: string, package: bool)
    requires |parts| > 0
  {
    var n := |parts| - 1;
    && (package <==> parts[n] == "__init__.py")
    && if package then name == Join(parts[..n], '.') else name + ".py" == Join(parts, '.')
  }

  lemma LastEnds(parts: seq<string>, suffix: string)
    requires |parts| > 0 && AllFree(parts, '/') && Free(suffix, '/') && EndsWith(Join(parts, '/'), suffix)
    requires |parts| > 1 || |parts[0]| >= |suffix|
    ensures EndsWith(parts[|parts| - 1], suffix)
  {
    var n := |parts| - 1;
    if n > 0 {
      var path, last := Join(parts, '/'), parts[n];
      assert parts == parts[..n] + [last];
      JoinAppend(parts[..n], [last], '/');
      var front := Join(parts[..n], '/');
      assert path == front + ['/'] + last;
      assert path[|front|] == '/';
      assert forall i :: |path| - |suffix| <= i < |path| ==> path[i] == suffix[i - (|path| - |suffix|)];
      assert last[|last| - |suffix|..] == path[|path| - |suffix|..];
    }
  }

  lemma JoinedEnds(parts: seq<string>, suffix: string)
    requires |parts| > 0 && EndsWith(parts[|parts| - 1], suffix)
    ensures EndsWith(Join(parts, '.'), suffix)
  {
    var n := |parts| - 1;
    var stem := DropSuffix(parts[n], |suffix|);
    assert parts[n] == stem + suffix;
    JoinWithSuffix(parts[..n], stem, suffix);
    assert parts[..n] + [stem + suffix] == parts;
    EndsWithAppend(Join(parts[..n] + [stem], '.'), suffix);
  }

  lemma JoinWithSuffix(front: seq<string>, stem: string, suffix: string)
    ensures Join(front + [stem + suffix], '.') == Join(front + [stem], '.') + suffix
  {
    var shorter := front + [stem];
    JoinSuffix(shorter, suffix, '.');
    assert shorter[..|front|] == front;
  }

  lemma ReadPartsName(parts: seq<string>, init: string, suffix: string, name: string, package: bool)
    requires |parts| > 0 && init == "__init__.py" && suffix == ".py" && EndsWith(parts[|parts| - 1], suffix)
    ensures ReadParts(parts, init, 3) == Some((name, package)) <==> Names(parts, name, package)
  {
    JoinedEnds(parts, suffix);
    var whole := Join(parts, '.');
    assert whole == DropSuffix(whole, 3) + suffix;
    assert (name + suffix)[..|name|] == name;
  }

  lemma SourcePathSplits(relative: string, parts: seq<string>)
    requires SourcePath(relative, parts)
    ensures Split(relative[4..], '/') == parts && StartsWith(relative, "src/")
  {
    SplitJoin(parts, '/');
    assert relative[4..] == Join(parts, '/') && relative[..4] == "src/";
  }

  lemma LastIsSource(relative: string, parts: seq<string>, suffix: string)
    requires SourcePath(relative, parts) && suffix == ".py"
    ensures EndsWith(parts[|parts| - 1], suffix)
  {
    var path := Join(parts, '/');
    if |parts| == 1 { assert path == parts[0]; } else { JoinAppend(parts[..1], parts[1..], '/'); }
    assert |parts| > 1 ==> parts == parts[..1] + parts[1..];
    assert |path| >= 12;
    assert relative[|relative| - 3..] == path[|path| - 3..];
    LastEnds(parts, suffix);
  }

  lemma ReadIsSourcePath(relative: string)
    requires ChildModuleName(relative).Some?
    ensures SourcePath(relative, Split(relative[4..], '/'))
  {
    var parts := Split(relative[4..], '/');
    JoinSplit(relative[4..], '/');
    SplitFree(relative[4..], '/');
    assert relative == relative[..4] + relative[4..];
  }

  lemma SourcePathIsRead(relative: string, parts: seq<string>)
    requires SourcePath(relative, parts)
    ensures ChildModuleName(relative) == ReadParts(parts, "__init__.py", 3)
  {
    SourcePathSplits(relative, parts);
  }

  // The child reads exactly the source files below src/serena_light, each as the module it names.
  lemma ChildReadsExactly(relative: string, name: string, package: bool)
    ensures ChildModuleName(relative) == Some((name, package)) <==>
            exists parts :: SourcePath(relative, parts) && Names(parts, name, package)
  {
    if ChildModuleName(relative).Some? { ReadIsSourcePath(relative); }
    forall parts | SourcePath(relative, parts)
      ensures ChildModuleName(relative) == Some((name, package)) <==> Names(parts, name, package)
    {
      SourcePathIsRead(relative, parts);
      LastIsSource(relative, parts, ".py");
      ReadPartsName(parts, "__init__.py", ".py", name, package);
    }
  }
}
