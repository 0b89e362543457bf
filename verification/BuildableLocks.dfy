/** Locks that a resolver can print and the parser accepts, for any valid request. */
module BuildableLocks {
  import opened Wrappers
  import opened Text
  import opened LockParser
  import opened LockRecords
  import opened LockRoundTrip
  import opened RequirementLines
  import opened Versions

  function Pinned(name: string, version: string, hash: string): Package {
    Package(name, version, name + "==" + version, [hash])
  }

  // Both candidates pinned to one version.
  function Pins(version: string, hash: string): seq<Package> {
    [Pinned("pyrefly", version, hash), Pinned("ty", version, hash)]
  }

  predicate LowerName(name: string) { name != "" && forall i :: 0 <= i < |name| ==> 'a' <= name[i] <= 'z' }

  lemma LowerNameStays(name: string)
    requires LowerName(name)
    ensures NormalizeName(name) == name && NameForm(name) && Free(name, '=')
  {
    CollapsedStays(name);
    assert Lower(name) == name;
  }

  lemma PinnedIsPrintable(name: string, version: string, hash: string)
    requires LowerName(name) && FinalVersion(version) && Hexadecimal(hash) && name[0] != 'h'
    ensures Printable(Pinned(name, version, hash)) && !StartsWith(Pinned(name, version, hash).requirement, "http")
  {
    LowerNameStays(name);
    HexadecimalIsHash(hash);
    PrefixChar(Pinned(name, version, hash).requirement, "http", 0);
  }

  lemma BelowByFirst(a: string, b: string)
    requires a != "" && b != "" && a[0] < b[0]
    ensures Below(a, b) && a != b
  {
  }

  lemma PairIsPrintable(a: Package, b: Package)
    requires Printable(a) && !StartsWith(a.requirement, "http")
    requires Printable(b) && !StartsWith(b.requirement, "http")
    requires Below(a.name, b.name) && a.name != b.name
    ensures AllPrintable([a, b]) && SortedBy([a, b], NameOf)
  {
    var pair := [a, b];
    assert pair[0] == a && pair[1] == b;
  }

  lemma PinsArePrintable(version: string, hash: string)
    requires FinalVersion(version) && Hexadecimal(hash)
    ensures AllPrintable(Pins(version, hash)) && SortedBy(Pins(version, hash), NameOf)
  {
    var first, second := "pyrefly", "ty";
    PinnedIsPrintable(first, version, hash);
    PinnedIsPrintable(second, version, hash);
    BelowByFirst(first, second);
    PairIsPrintable(Pinned(first, version, hash), Pinned(second, version, hash));
  }

  lemma PinsAreCandidates(version: string, hash: string)
    ensures HasCandidates(Pins(version, hash))
  {
    assert Pins(version, hash)[0].name == "pyrefly" && Pins(version, hash)[1].name == "ty";
  }

  // Such a lock builds for every final version and every request with a valid time.
  lemma PinsBuild(version: Version, hash: string, excludeNewer: string)
    requires version.Valid() && Hexadecimal(hash) && UtcForm(excludeNewer)
    ensures BuildLock(PrintLock(Pins(version.Text(), hash)), excludeNewer).Built?
  {
    FinalVersionsAre(version.Text());
    PinsArePrintable(version.Text(), hash);
    PinsAreCandidates(version.Text(), hash);
    PrintedLockRoundTrip(Pins(version.Text(), hash));
    RecordsNeverRefuse(PrintLock(Pins(version.Text(), hash)), excludeNewer);
  }

  // Different versions make different locks.
  lemma PinsDiffer(one: Version, two: Version, hash: string)
    requires Hexadecimal(hash) && one.Valid() && two.Valid() && one.Text() != two.Text()
    ensures PrintLock(Pins(one.Text(), hash)) != PrintLock(Pins(two.Text(), hash))
  {
    FinalVersionsAre(one.Text());
    FinalVersionsAre(two.Text());
    PinsArePrintable(one.Text(), hash);
    PinsArePrintable(two.Text(), hash);
    PrintedLockRoundTrip(Pins(one.Text(), hash));
    PrintedLockRoundTrip(Pins(two.Text(), hash));
    assert Pins(one.Text(), hash)[0].version != Pins(two.Text(), hash)[0].version;
  }
}
