/**
 * The recursive corpus walks: the Git remainder scan, which prunes four names and skips what is
 * already hashed, and the walk below a declared metadata root, which does neither.
 */
module CorpusScan {
  import opened Wrappers
  import opened Text

  datatype Node = RegularFile | SpecialFile | Symlink(target: string) | Folder(children: seq<Entry>)
  datatype Entry = Entry(name: string, node: Node)

  datatype Kind = FileKind | SpecialKind | SymlinkKind(target: string) | FolderKind
  datatype Record = Record(path: string, kind: Kind)

  function KindOf(node: Node): Kind {
    match node
    case RegularFile => FileKind
    case SpecialFile => SpecialKind
    case Symlink(target) => SymlinkKind(target)
    case Folder(_) => FolderKind
  }

  // The kind says what the node is.
  predicate IsKind(node: Node, kind: Kind) {
    match kind
    case FileKind => node == RegularFile
    case SpecialKind => node == SpecialFile
    case SymlinkKind(target) => node == Symlink(target)
    case FolderKind => node.Folder?
  }

  lemma KindIs(node: Node, kind: Kind)
    ensures kind == KindOf(node) <==> IsKind(node, kind)
  {
  }

  const EXCLUDED_NAMES: set<string> := {".admission-artifacts", ".git", ".venv", "node_modules"}
  const MAX_DEPTH: nat := 128

  // What a walk leaves out: names it prunes, and paths that already have a content digest.
  datatype Rules = Rules(pruned: set<string>, hashed: set<string>)

  // A directory holds each name once.
  ghost predicate ValidTree(children: seq<Entry>) {
    && (forall i, j :: 0 <= i < j < |children| ==> children[i].name != children[j].name)
    && (forall i :: 0 <= i < |children| ==> Component(children[i].name))
    && (forall i :: 0 <= i < |children| && children[i].node.Folder? ==> ValidTree(children[i].node.children))
  }

  function Find(children: seq<Entry>, name: string): (i: nat)
    ensures i <= |children|
    ensures i < |children| ==> children[i].name == name
    ensures i == |children| ==> forall j :: 0 <= j < |children| ==> children[j].name != name
  {
    if |children| == 0 || children[0].name == name then 0 else 1 + Find(children[1..], name)
  }

  function Names(children: seq<Entry>): seq<string> {
    seq(|children|, i requires 0 <= i < |children| => children[i].name)
  }

  function SortedNames(children: seq<Entry>): seq<string> { Sort(Names(children)) }

  // The node at a path below a directory.
  function At(children: seq<Entry>, path: seq<string>): Option<Node>
    decreases |path|
  {
    if |path| == 0 then None
    else
      var i := Find(children, path[0]);
      if i == |children| then None
      else if |path| == 1 then Some(children[i].node)
      else if children[i].node.Folder? then At(children[i].node.children, path[1..])
      else None
  }

  datatype Scanned = Scanned(records: seq<Record>, excluded: seq<string>) {
    function Plus(more: Scanned): Scanned { Scanned(records + more.records, excluded + more.excluded) }
  }

  // What the loop body appends for one name.
  function ScanEntry(children: seq<Entry>, name: string, prefix: string, rules: Rules): Scanned
    decreases children, 0, 0
  {
    var i := Find(children, name);
    var path := prefix + name;
    if i == |children| then Scanned([], [])
    else if name in rules.pruned then Scanned([], [path])
    else if children[i].node.Folder? then
      var below := children[i].node.children;
      Scanned([Record(path, FolderKind)], []).Plus(ScanNames(below, SortedNames(below), path + "/", rules))
    else if path in rules.hashed then Scanned([], [])
    else Scanned([Record(path, KindOf(children[i].node))], [])
  }

  function ScanNames(children: seq<Entry>, names: seq<string>, prefix: string, rules: Rules): Scanned
    decreases children, 1, |names|
  {
    if |names| == 0 then Scanned([], [])
    else ScanEntry(children, names[0], prefix, rules).Plus(ScanNames(children, names[1..], prefix, rules))
  }

  // Whether the walk stays within the depth bound.
  predicate ShallowEntry(children: seq<Entry>, name: string, rules: Rules, depth: nat)
    decreases children, 0, 0
  {
    var i := Find(children, name);
    i < |children| && name !in rules.pruned && children[i].node.Folder? ==>
      ShallowNames(children[i].node.children, SortedNames(children[i].node.children), rules, depth + 1)
  }

  predicate ShallowNames(children: seq<Entry>, names: seq<string>, rules: Rules, depth: nat)
    decreases children, 1, |names|
  {
    && depth <= MAX_DEPTH
    && (|names| > 0 ==>
          ShallowEntry(children, names[0], rules, depth) && ShallowNames(children, names[1..], rules, depth))
  }

  // The lists the walk appends to.
  class RemainderScan {
    var records: seq<Record>
    var excluded: seq<string>

    constructor ()
      ensures records == [] && excluded == []
    {
      records, excluded := [], [];
    }

    ghost function Contents(): Scanned
      reads this
    {
      Scanned(records, excluded)
    }

    // _walk_remainder, below one open directory.
    method Walk(children: seq<Entry>, prefix: string, rules: Rules, depth: nat) returns (ok: bool)
      modifies this
      ensures ok == ShallowNames(children, SortedNames(children), rules, depth)
      ensures ok ==> Contents() == old(Contents()).Plus(ScanNames(children, SortedNames(children), prefix, rules))
      decreases children, 1
    {
      if depth > MAX_DEPTH { return false; }
      var names := SortedNames(children);
      var k := 0;
      ghost var start := Contents();
      assert names[0..] == names;
      while k < |names|
        invariant 0 <= k <= |names|
        invariant start.Plus(ScanNames(children, names, prefix, rules)) ==
                Contents().Plus(ScanNames(children, names[k..], prefix, rules))
        invariant ShallowNames(children, names, rules, depth) == ShallowNames(children, names[k..], rules, depth)
      {
        assert names[k..][0] == names[k] && names[k..][1..] == names[k + 1..];
        ok := Visit(children, names[k], prefix, rules, depth);
        if !ok { return; }
        k := k + 1;
      }
      ok := true;
    }

    method Visit(children: seq<Entry>, name: string, prefix: string, rules: Rules, depth: nat) returns (ok: bool)
      modifies this
      ensures ok == ShallowEntry(children, name, rules, depth)
      ensures ok ==> Contents() == old(Contents()).Plus(ScanEntry(children, name, prefix, rules))
      decreases children, 0
    {
      var relative := prefix + name;
      var i := Find(children, name);
      if i == |children| { return true; }
      if name in rules.pruned {
        excluded := excluded + [relative];
        return true;
      }
      var node := children[i].node;
      if node.Folder? {
        records := records + [Record(relative, FolderKind)];
        ok := Walk(node.children, relative + "/", rules, depth + 1);
        return;
      }
      if relative !in rules.hashed {
        records := records + [Record(relative, KindOf(node))];
      }
      return true;
    }
  }

  // --- what the walk records ----------------------------------------------------------------

  ghost predicate Prunes(path: seq<string>, rules: Rules) { exists i :: 0 <= i < |path| && path[i] in rules.pruned }

  // The record of a path below a directory, if the walk makes one.
  ghost predicate Recorded(children: seq<Entry>, path: seq<string>, prefix: string, rules: Rules, r: Record) {
    var node := At(children, path);
    && node.Some? && !Prunes(path, rules)
    && r == Record(prefix + Join(path, '/'), KindOf(node.value))
    && (node.value.Folder? || r.path !in rules.hashed)
  }

  // A path that ends at the first pruned name on it.
  ghost predicate PrunedTop(children: seq<Entry>, path: seq<string>, rules: Rules) {
    && At(children, path).Some?
    && path[|path| - 1] in rules.pruned && !Prunes(path[..|path| - 1], rules)
  }

  lemma JoinCons(name: string, path: seq<string>)
    requires |path| > 0
    ensures Join([name] + path, '/') == name + "/" + Join(path, '/')
  {
    assert ([name] + path)[1..] == path;
  }

  lemma PathCons(prefix: string, name: string, path: seq<string>)
    requires |path| > 0
    ensures prefix + Join([name] + path, '/') == prefix + name + "/" + Join(path, '/')
  {
    JoinCons(name, path);
    Associates(prefix, name, "/", Join(path, '/'));
  }

  lemma Associates(a: string, b: string, c: string, d: string)
    ensures a + (b + c + d) == a + b + c + d
  {
  }

  lemma SortedNamesHold(children: seq<Entry>)
    ensures forall name :: name in SortedNames(children) <==> Find(children, name) < |children|
  {
    SortByMembers(Names(children), name => name);
    forall name ensures name in Names(children) <==> Find(children, name) < |children| {
      if name in Names(children) { var i :| 0 <= i < |children| && Names(children)[i] == name; }
      if Find(children, name) < |children| { assert Names(children)[Find(children, name)] == name; }
    }
  }

  // Every record comes from a path.
  lemma {:induction false} RecordHasPath(
    children: seq<Entry>, names: seq<string>, prefix: string, rules: Rules, r: Record)
    returns (path: seq<string>)
    requires r in ScanNames(children, names, prefix, rules).records
    ensures |path| > 0 && path[0] in names && Recorded(children, path, prefix, rules, r)
    decreases children, 1, |names|
  {
    if r in ScanEntry(children, names[0], prefix, rules).records {
      path := EntryRecordHasPath(children, names[0], prefix, rules, r);
    } else {
      path := RecordHasPath(children, names[1..], prefix, rules, r);
    }
  }

  lemma {:induction false} EntryRecordHasPath(
    children: seq<Entry>, name: string, prefix: string, rules: Rules, r: Record)
    returns (path: seq<string>)
    requires r in ScanEntry(children, name, prefix, rules).records
    ensures |path| > 0 && path[0] == name && Recorded(children, path, prefix, rules, r)
    decreases children, 0, 0
  {
    var node := children[Find(children, name)].node;
    path := [name];
    if node.Folder? && r != Record(prefix + name, FolderKind) {
      var rest := RecordHasPath(node.children, SortedNames(node.children), prefix + name + "/", rules, r);
      path := [name] + rest;
      PathCons(prefix, name, rest);
      assert path[1..] == rest;
      assert !Prunes(path, rules);
    }
  }

  // Every path the walk should record is recorded.
  lemma {:induction false} PathIsRecorded(
    children: seq<Entry>, names: seq<string>, prefix: string, rules: Rules, r: Record, path: seq<string>)
    requires |path| > 0 && path[0] in names && Recorded(children, path, prefix, rules, r)
    ensures r in ScanNames(children, names, prefix, rules).records
    decreases children, 1, |names|
  {
    if path[0] == names[0] {
      EntryPathIsRecorded(children, prefix, rules, r, path);
    } else {
      PathIsRecorded(children, names[1..], prefix, rules, r, path);
    }
  }

  lemma {:induction false} EntryPathIsRecorded(
    children: seq<Entry>, prefix: string, rules: Rules, r: Record, path: seq<string>)
    requires |path| > 0 && Recorded(children, path, prefix, rules, r)
    ensures r in ScanEntry(children, path[0], prefix, rules).records
    decreases children, 0, 0
  {
    var node := children[Find(children, path[0])].node;
    assert path[0] !in rules.pruned;
    if |path| == 1 {
      assert path == [path[0]];
    } else {
      var rest := path[1..];
      assert path == [path[0]] + rest;
      PathCons(prefix, path[0], rest);
      SortedNamesHold(node.children);
      assert !Prunes(rest, rules);
      assert At(node.children, rest) == At(children, path);
      assert rest[0] in SortedNames(node.children);
      PathIsRecorded(node.children, SortedNames(node.children), prefix + path[0] + "/", rules, r, rest);
    }
  }

  // --- each path once -----------------------------------------------------------------------

  // Paths below valid directories are made of slash-free names, so different ones stay different.
  lemma {:induction false} PathsAreFree(children: seq<Entry>, path: seq<string>)
    requires ValidTree(children) && At(children, path).Some?
    ensures AllFree(path, '/')
    decreases |path|
  {
    var node := children[Find(children, path[0])].node;
    if |path| > 1 {
      PathsAreFree(node.children, path[1..]);
      assert path == [path[0]] + path[1..];
    }
  }

  lemma SamePath(children: seq<Entry>, prefix: string, p: seq<string>, q: seq<string>)
    requires ValidTree(children) && At(children, p).Some? && At(children, q).Some?
    requires prefix + Join(p, '/') == prefix + Join(q, '/')
    ensures p == q
  {
    PathsAreFree(children, p);
    PathsAreFree(children, q);
    assert Join(p, '/') == (prefix + Join(p, '/'))[|prefix|..] == Join(q, '/');
    SplitJoin(p, '/');
    SplitJoin(q, '/');
  }

  function PathOf(r: Record): string { r.path }

  lemma DistinctAppend<T>(a: seq<T>, b: seq<T>, key: T -> string)
    requires DistinctBy(a, key) && DistinctBy(b, key)
    requires forall i, j :: 0 <= i < |a| && 0 <= j < |b| ==> key(a[i]) != key(b[j])
    ensures DistinctBy(a + b, key)
  {
  }

  lemma {:induction false} RecordsAreDistinct(children: seq<Entry>, names: seq<string>, prefix: string, rules: Rules)
    requires ValidTree(children) && Distinct(names)
    ensures DistinctBy(ScanNames(children, names, prefix, rules).records, PathOf)
    decreases children, 1, |names|
  {
    if |names| > 0 {
      var first := ScanEntry(children, names[0], prefix, rules).records;
      var rest := ScanNames(children, names[1..], prefix, rules).records;
      EntryRecordsAreDistinct(children, names[0], prefix, rules);
      RecordsAreDistinct(children, names[1..], prefix, rules);
      forall i, j | 0 <= i < |first| && 0 <= j < |rest| ensures PathOf(first[i]) != PathOf(rest[j]) {
        var p := EntryRecordHasPath(children, names[0], prefix, rules, first[i]);
        var q := RecordHasPath(children, names[1..], prefix, rules, rest[j]);
        if first[i].path == rest[j].path { SamePath(children, prefix, p, q); }
      }
      DistinctAppend(first, rest, PathOf);
    }
  }

  lemma {:induction false} EntryRecordsAreDistinct(children: seq<Entry>, name: string, prefix: string, rules: Rules)
    requires ValidTree(children)
    ensures DistinctBy(ScanEntry(children, name, prefix, rules).records, PathOf)
    decreases children, 0, 0
  {
    var i := Find(children, name);
    if i < |children| && name !in rules.pruned && children[i].node.Folder? {
      var below := children[i].node.children;
      var rest := ScanNames(below, SortedNames(below), prefix + name + "/", rules).records;
      SortedNamesDistinct(below);
      RecordsAreDistinct(below, SortedNames(below), prefix + name + "/", rules);
      forall j | 0 <= j < |rest| ensures rest[j].path != prefix + name {
        var p := RecordHasPath(below, SortedNames(below), prefix + name + "/", rules, rest[j]);
        assert |rest[j].path| > |prefix + name|;
      }
      DistinctAppend([Record(prefix + name, FolderKind)], rest, PathOf);
    }
  }

  lemma SortedNamesDistinct(children: seq<Entry>)
    requires ValidTree(children)
    ensures Distinct(SortedNames(children))
  {
    assert Distinct(Names(children));
    SortDistinct(Names(children));
  }

  // --- the pruned list ----------------------------------------------------------------------

  // Every listed path is the top of a pruned tree.
  lemma {:induction false} ExcludedHasPath(
    children: seq<Entry>, names: seq<string>, prefix: string, rules: Rules, x: string)
    returns (path: seq<string>)
    requires x in ScanNames(children, names, prefix, rules).excluded
    ensures |path| > 0 && path[0] in names && PrunedTop(children, path, rules) && x == prefix + Join(path, '/')
    decreases children, 1, |names|
  {
    if x in ScanEntry(children, names[0], prefix, rules).excluded {
      path := EntryExcludedHasPath(children, names[0], prefix, rules, x);
    } else {
      path := ExcludedHasPath(children, names[1..], prefix, rules, x);
    }
  }

  lemma {:induction false} EntryExcludedHasPath(
    children: seq<Entry>, name: string, prefix: string, rules: Rules, x: string)
    returns (path: seq<string>)
    requires x in ScanEntry(children, name, prefix, rules).excluded
    ensures |path| > 0 && path[0] == name && PrunedTop(children, path, rules) && x == prefix + Join(path, '/')
    decreases children, 0, 0
  {
    path := [name];
    if name !in rules.pruned {
      var below := children[Find(children, name)].node.children;
      var rest := ExcludedHasPath(below, SortedNames(below), prefix + name + "/", rules, x);
      path := [name] + rest;
      PathCons(prefix, name, rest);
      assert path[1..] == rest && path[..|path| - 1] == [name] + rest[..|rest| - 1];
    }
  }

  // Every top of a pruned tree is listed.
  lemma {:induction false} TopIsExcluded(
    children: seq<Entry>, names: seq<string>, prefix: string, rules: Rules, path: seq<string>)
    requires |path| > 0 && path[0] in names && PrunedTop(children, path, rules)
    ensures prefix + Join(path, '/') in ScanNames(children, names, prefix, rules).excluded
    decreases children, 1, |names|
  {
    if path[0] == names[0] {
      EntryTopIsExcluded(children, prefix, rules, path);
    } else {
      TopIsExcluded(children, names[1..], prefix, rules, path);
    }
  }

  lemma {:induction false} EntryTopIsExcluded(children: seq<Entry>, prefix: string, rules: Rules, path: seq<string>)
    requires |path| > 0 && PrunedTop(children, path, rules)
    ensures prefix + Join(path, '/') in ScanEntry(children, path[0], prefix, rules).excluded
    decreases children, 0, 0
  {
    if |path| == 1 {
      assert path == [path[0]];
    } else {
      var node := children[Find(children, path[0])].node;
      var rest := path[1..];
      assert path == [path[0]] + rest && path[..|path| - 1][0] == path[0];
      PathCons(prefix, path[0], rest);
      SortedNamesHold(node.children);
      assert At(node.children, rest) == At(children, path);
      assert rest[..|rest| - 1] == path[..|path| - 1][1..];
      assert rest[0] in SortedNames(node.children);
      TopIsExcluded(node.children, SortedNames(node.children), prefix + path[0] + "/", rules, rest);
    }
  }

  lemma {:induction false} ExcludedAreDistinct(children: seq<Entry>, names: seq<string>, prefix: string, rules: Rules)
    requires ValidTree(children) && Distinct(names)
    ensures Distinct(ScanNames(children, names, prefix, rules).excluded)
    decreases children, 1, |names|
  {
    if |names| > 0 {
      var first := ScanEntry(children, names[0], prefix, rules).excluded;
      var rest := ScanNames(children, names[1..], prefix, rules).excluded;
      var i := Find(children, names[0]);
      if i < |children| && names[0] !in rules.pruned && children[i].node.Folder? {
        var below := children[i].node.children;
        SortedNamesDistinct(below);
        ExcludedAreDistinct(below, SortedNames(below), prefix + names[0] + "/", rules);
      }
      ExcludedAreDistinct(children, names[1..], prefix, rules);
      forall i, j | 0 <= i < |first| && 0 <= j < |rest| ensures first[i] != rest[j] {
        var p := EntryExcludedHasPath(children, names[0], prefix, rules, first[i]);
        var q := ExcludedHasPath(children, names[1..], prefix, rules, rest[j]);
        if first[i] == rest[j] { SamePath(children, prefix, p, q); }
      }
      DistinctAppend(first, rest, x => x);
    }
  }

  // --- the depth bound ----------------------------------------------------------------------

  ghost predicate FolderAt(children: seq<Entry>, path: seq<string>, rules: Rules) {
    var node := At(children, path);
    node.Some? && node.value.Folder? && !Prunes(path, rules)
  }

  lemma {:induction false} ShallowMeans(
    children: seq<Entry>, names: seq<string>, rules: Rules, depth: nat, path: seq<string>)
    requires ShallowNames(children, names, rules, depth)
    requires |path| > 0 && path[0] in names && FolderAt(children, path, rules)
    ensures depth + |path| <= MAX_DEPTH
    decreases children, |names|
  {
    if path[0] != names[0] {
      ShallowMeans(children, names[1..], rules, depth, path);
    } else {
      var below := children[Find(children, path[0])].node.children;
      assert path[0] !in rules.pruned;
      assert ShallowNames(below, SortedNames(below), rules, depth + 1);
      if |path| > 1 {
        var rest := path[1..];
        assert At(below, rest) == At(children, path);
        assert !Prunes(rest, rules);
        SortedNamesHold(below);
        assert rest[0] in SortedNames(below);
        ShallowMeans(below, SortedNames(below), rules, depth + 1, rest);
      }
    }
  }

  lemma {:induction false} DeepHasPath(children: seq<Entry>, names: seq<string>, rules: Rules, depth: nat)
    returns (path: seq<string>)
    requires !ShallowNames(children, names, rules, depth) && depth <= MAX_DEPTH
    ensures |path| > 0 && path[0] in names && FolderAt(children, path, rules) && depth + |path| > MAX_DEPTH
    decreases children, |names|
  {
    if ShallowEntry(children, names[0], rules, depth) {
      path := DeepHasPath(children, names[1..], rules, depth);
    } else {
      var below := children[Find(children, names[0])].node.children;
      path := [names[0]];
      if depth + 1 <= MAX_DEPTH {
        var rest := DeepHasPath(below, SortedNames(below), rules, depth + 1);
        path := [names[0]] + rest;
        assert path[1..] == rest;
        assert At(children, path) == At(below, rest);
      }
    }
  }

  // --- the remainder scan -------------------------------------------------------------------

  // How often a path occurs among the records.
  function Times(path: string, records: seq<Record>): nat {
    if |records| == 0 then 0 else (if records[0].path == path then 1 else 0) + Times(path, records[1..])
  }

  lemma {:induction false} TimesOnce(path: string, records: seq<Record>)
    requires DistinctBy(records, PathOf)
    ensures Times(path, records) == (if exists r :: r in records && r.path == path then 1 else 0)
  {
    if |records| > 0 {
      assert DistinctBy(records[1..], PathOf);
      TimesOnce(path, records[1..]);
      assert records == [records[0]] + records[1..];
      if records[0].path == path {
        forall r | r in records[1..] ensures r.path != path {
          var k :| 1 <= k < |records| && records[k] == r;
          assert PathOf(records[0]) != PathOf(records[k]);
        }
      }
    }
  }

  function GitRules(hashed: set<string>): Rules { Rules(EXCLUDED_NAMES, hashed) }

  datatype Remainder = TooDeep | Duplicate | Remainder(records: seq<Record>, excluded: seq<string>)

  // Some folder outside every pruned tree lies deeper than the bound.
  ghost predicate Deep(children: seq<Entry>, rules: Rules) {
    exists path :: FolderAt(children, path, rules) && |path| > MAX_DEPTH
  }

  // The trees a remainder scan leaves alone.
  function FourNames(): set<string> { {".admission-artifacts", ".git", ".venv", "node_modules"} }

  // The first pruned name on a path.
  function PrunedAt(path: seq<string>, pruned: set<string>): (n: nat)
    ensures n <= |path|
    ensures n < |path| ==> path[n] in pruned
    ensures forall i :: 0 <= i < n ==> path[i] !in pruned
  {
    if |path| == 0 || path[0] in pruned then 0 else 1 + PrunedAt(path[1..], pruned)
  }

  /**
   * The partition. Every path of the tree is exactly one of: at or below a pruned name, and then
   * not recorded while the top of its pruned tree is listed; or a hashed non-directory, not
   * recorded; or recorded exactly once, with its own kind.
   */
  ghost predicate Accounts(children: seq<Entry>, hashed: set<string>, remainder: Remainder, path: seq<string>)
    requires remainder.Remainder? && At(children, path).Some?
  {
    var node, name := At(children, path).value, Join(path, '/');
    var n := PrunedAt(path, FourNames());
    if n < |path| then
      Times(name, remainder.records) == 0 && Join(path[..n + 1], '/') in remainder.excluded
    else if !node.Folder? && name in hashed then
      Times(name, remainder.records) == 0
    else
      && Times(name, remainder.records) == 1
      && forall r :: r in remainder.records && r.path == name ==> IsKind(node, r.kind)
  }

  // Nothing else is recorded or listed, and both lists are strictly increasing.
  ghost predicate NothingElse(children: seq<Entry>, remainder: Remainder)
    requires remainder.Remainder?
  {
    && (forall r :: r in remainder.records ==> exists path :: At(children, path).Some? && r.path == Join(path, '/'))
    && (forall x :: x in remainder.excluded ==>
          exists path :: PrunedTop(children, path, Rules(FourNames(), {})) && x == Join(path, '/'))
    && SortedBy(remainder.records, PathOf) && DistinctBy(remainder.records, PathOf)
    && Sorted(remainder.excluded) && Distinct(remainder.excluded)
  }

  ghost predicate Partitions(children: seq<Entry>, hashed: set<string>, remainder: Remainder)
    requires remainder.Remainder?
  {
    && NothingElse(children, remainder)
    && forall path :: At(children, path).Some? ==> Accounts(children, hashed, remainder, path)
  }

  lemma {:induction false} PrefixExists(children: seq<Entry>, path: seq<string>, n: nat)
    requires At(children, path).Some? && 0 < n <= |path|
    ensures At(children, path[..n]).Some?
    decreases n
  {
    if n > 1 {
      var below := children[Find(children, path[0])].node.children;
      PrefixExists(below, path[1..], n - 1);
      assert path[..n][1..] == path[1..][..n - 1];
    }
  }

  lemma OneRecordEach(records: seq<Record>, r: Record, q: Record)
    requires DistinctBy(records, PathOf) && r in records && q in records && r.path == q.path
    ensures r == q
  {
    var i :| 0 <= i < |records| && records[i] == r;
    var j :| 0 <= j < |records| && records[j] == q;
    assert PathOf(records[i]) == PathOf(records[j]);
  }

  lemma ScanAccounts(children: seq<Entry>, hashed: set<string>, remainder: Remainder, path: seq<string>)
    requires ValidTree(children) && remainder.Remainder? && At(children, path).Some?
    requires DistinctBy(remainder.records, PathOf)
    requires var scanned := ScanNames(children, SortedNames(children), "", GitRules(hashed));
             && (forall r :: r in remainder.records <==> r in scanned.records)
             && (forall x :: x in remainder.excluded <==> x in scanned.excluded)
    ensures Accounts(children, hashed, remainder, path)
  {
    var name, n := Join(path, '/'), PrunedAt(path, FourNames());
    var rules, names := GitRules(hashed), SortedNames(children);
    assert rules.pruned == FourNames() && "" + name == name;
    SortedNamesHold(children);
    TimesOnce(name, remainder.records);
    if exists r :: r in remainder.records && r.path == name {
      var r :| r in remainder.records && r.path == name;
      var p := RecordHasPath(children, names, "", rules, r);
      SamePath(children, "", p, path);
      assert !Prunes(path, rules);
    }
    if n < |path| {
      PrefixExists(children, path, n + 1);
      assert path[..n + 1][..n] == path[..n];
      TopIsExcluded(children, names, "", rules, path[..n + 1]);
      assert "" + Join(path[..n + 1], '/') == Join(path[..n + 1], '/');
    } else {
      assert !Prunes(path, rules);
      if At(children, path).value.Folder? || name !in hashed { KeptIsRecorded(children, hashed, remainder, path); }
    }
  }

  // A path that is neither pruned nor hashed has its record, and only that one.
  lemma KeptIsRecorded(children: seq<Entry>, hashed: set<string>, remainder: Remainder, path: seq<string>)
    requires ValidTree(children) && remainder.Remainder? && At(children, path).Some?
    requires DistinctBy(remainder.records, PathOf) && !Prunes(path, GitRules(hashed))
    requires At(children, path).value.Folder? || Join(path, '/') !in hashed
    requires forall r :: r in ScanNames(children, SortedNames(children), "", GitRules(hashed)).records ==>
               r in remainder.records
    ensures exists r :: r in remainder.records && r.path == Join(path, '/')
    ensures forall r :: r in remainder.records && r.path == Join(path, '/') ==> IsKind(At(children, path).value, r.kind)
  {
    var node, name := At(children, path).value, Join(path, '/');
    SortedNamesHold(children);
    assert "" + name == name;
    PathIsRecorded(children, SortedNames(children), "", GitRules(hashed), Record(name, KindOf(node)), path);
    forall r | r in remainder.records && r.path == name ensures IsKind(node, r.kind) {
      OneRecordEach(remainder.records, r, Record(name, KindOf(node)));
      KindIs(node, r.kind);
    }
  }

  function PathSet(records: seq<Record>): set<string> {
    if |records| == 0 then {} else {records[0].path} + PathSet(records[1..])
  }

  lemma {:induction false} PathSetHolds(records: seq<Record>, path: string)
    ensures path in PathSet(records) <==> exists i :: 0 <= i < |records| && records[i].path == path
  {
    if |records| > 0 {
      PathSetHolds(records[1..], path);
      if path in PathSet(records[1..]) {
        var i :| 0 <= i < |records[1..]| && records[1..][i].path == path;
        assert records[i + 1].path == path;
      }
      if i :| 1 <= i < |records| && records[i].path == path { assert records[1..][i - 1].path == path; }
    }
  }

  // Records with distinct paths have as many different paths as there are records.
  lemma {:induction false} DistinctPathCount(records: seq<Record>)
    requires DistinctBy(records, PathOf)
    ensures |PathSet(records)| == |records|
  {
    if |records| > 0 {
      DistinctPathCount(records[1..]);
      PathSetHolds(records[1..], records[0].path);
      forall i | 0 <= i < |records[1..]| ensures records[1..][i].path != records[0].path {
        assert PathOf(records[0]) != PathOf(records[i + 1]);
      }
    }
  }

  /**
   * _scan_remainder. It refuses exactly when some directory lies too deep; the duplicate guard
   * never fires; and otherwise every path of the tree is accounted for and nothing else.
   */
  method ScanRemainder(children: seq<Entry>, hashed: set<string>) returns (result: Remainder)
    requires ValidTree(children)
    ensures !result.Duplicate?
    ensures result.TooDeep? <==>
            exists path :: |path| > 128 && FolderAt(children, path, Rules(FourNames(), {}))
    ensures result.Remainder? ==> Partitions(children, hashed, result)
  {
    var ok, records, excluded := ScanTree(children, GitRules(hashed));
    DeepExactly(children, GitRules(hashed));
    DeepIs(children, hashed);
    if !ok { return TooDeep; }
    var ordered := SortBy(records, PathOf);
    ScanIsOrdered(children, GitRules(hashed), ordered);
    if |PathSet(ordered)| != |ordered| { return Duplicate; }
    result := Remainder(ordered, Sort(excluded));
    ScanIsComplete(children, hashed, result);
  }

  lemma DeepIs(children: seq<Entry>, hashed: set<string>)
    ensures Deep(children, GitRules(hashed)) <==>
            exists path :: |path| > 128 && FolderAt(children, path, Rules(FourNames(), {}))
  {
    var rules := Rules(FourNames(), {});
    forall path ensures FolderAt(children, path, GitRules(hashed)) <==> FolderAt(children, path, rules) {
      assert Prunes(path, GitRules(hashed)) <==> Prunes(path, rules);
    }
  }

  method ScanTree(children: seq<Entry>, rules: Rules) returns (ok: bool, records: seq<Record>, excluded: seq<string>)
    ensures ok == ShallowNames(children, SortedNames(children), rules, 0)
    ensures ok ==> Scanned(records, excluded) == ScanNames(children, SortedNames(children), "", rules)
  {
    var scan := new RemainderScan();
    ok := scan.Walk(children, "", rules, 0);
    records, excluded := scan.records, scan.excluded;
    assert ok ==> records == [] + ScanNames(children, SortedNames(children), "", rules).records;
    assert ok ==> excluded == [] + ScanNames(children, SortedNames(children), "", rules).excluded;
  }

  lemma DeepExactly(children: seq<Entry>, rules: Rules)
    ensures ShallowNames(children, SortedNames(children), rules, 0) <==> !Deep(children, rules)
  {
    SortedNamesHold(children);
    if ShallowNames(children, SortedNames(children), rules, 0) {
      forall path | FolderAt(children, path, rules) ensures |path| <= MAX_DEPTH {
        ShallowMeans(children, SortedNames(children), rules, 0, path);
      }
    } else {
      var path := DeepHasPath(children, SortedNames(children), rules, 0);
    }
  }

  lemma ScanIsOrdered(children: seq<Entry>, rules: Rules, ordered: seq<Record>)
    requires ValidTree(children)
    requires ordered == SortBy(ScanNames(children, SortedNames(children), "", rules).records, PathOf)
    ensures SortedBy(ordered, PathOf) && DistinctBy(ordered, PathOf)
    ensures |PathSet(ordered)| == |ordered|
  {
    var records := ScanNames(children, SortedNames(children), "", rules).records;
    SortedNamesDistinct(children);
    RecordsAreDistinct(children, SortedNames(children), "", rules);
    SortByDistinct(records, PathOf);
    SortBySorts(records, PathOf);
    DistinctPathCount(ordered);
  }

  lemma ScanIsComplete(children: seq<Entry>, hashed: set<string>, result: Remainder)
    requires ValidTree(children)
    requires var scanned := ScanNames(children, SortedNames(children), "", GitRules(hashed));
             result == Remainder(SortBy(scanned.records, PathOf), Sort(scanned.excluded))
    ensures Partitions(children, hashed, result)
  {
    var rules, names := GitRules(hashed), SortedNames(children);
    var scanned := ScanNames(children, names, "", rules);
    ScanIsOrdered(children, rules, result.records);
    SortedNamesDistinct(children);
    ExcludedAreDistinct(children, names, "", rules);
    SortDistinct(scanned.excluded);
    SortByMembers(scanned.records, PathOf);
    forall path | At(children, path).Some? ensures Accounts(children, hashed, result, path) {
      ScanAccounts(children, hashed, result, path);
    }
    forall r | r in result.records ensures exists path :: At(children, path).Some? && r.path == Join(path, '/') {
      var path := RecordHasPath(children, names, "", rules, r);
    }
    forall x | x in result.excluded
      ensures exists path :: PrunedTop(children, path, Rules(FourNames(), {})) && x == Join(path, '/')
    {
      var path := ExcludedHasPath(children, names, "", rules, x);
      assert PrunedTop(children, path, Rules(FourNames(), {}));
    }
  }
}
