/** Why a parsed lock is never refused by the records it is built into. */
module LockRecords {
  import opened Wrappers
  import opened Text
  import opened LockParser

  // --- normalized names ---------------------------------------------------------------------

  // No separator but single dashes.
  ghost predicate Collapsed(s: string) {
    forall i :: 0 <= i < |s| && IsSeparator(s[i]) ==> s[i] == '-' && (i + 1 < |s| ==> !IsSeparator(s[i + 1]))
  }

  lemma {:induction false} CollapseForm(s: string)
    ensures Collapsed(Collapse(s))
    ensures s != "" ==> Collapse(s) != "" && (IsSeparator(Collapse(s)[0]) <==> IsSeparator(s[0]))
  {
    if s != "" { CollapseForm(s[1..]); }
  }

  lemma {:induction false} CollapsedStays(s: string)
    requires Collapsed(s)
    ensures Collapse(s) == s
  {
    if s != "" {
      var rest := s[1..];
      assert forall i :: 0 <= i < |rest| ==> rest[i] == s[i + 1];
      CollapsedStays(rest);
      assert s == [s[0]] + rest;
    }
  }

  lemma {:induction false} CollapseAll(s: string, p: char -> bool)
    requires All(s, p) && p('-')
    ensures All(Collapse(s), p)
  {
    if s != "" {
      assert All(s[1..], p);
      CollapseAll(s[1..], p);
    }
  }

  // A normalized name is its own normalization.
  lemma NormalizeIdempotent(s: string)
    ensures NormalizeName(NormalizeName(s)) == NormalizeName(s)
  {
    var c := Collapse(s);
    CollapseForm(s);
    assert Collapsed(Lower(c));
    CollapsedStays(Lower(c));
    assert Lower(Lower(c)) == Lower(c);
  }

  lemma NormalizedForm(s: string)
    requires NameForm(s)
    ensures NormalizeName(s) != "" && Free(NormalizeName(s), '=')
  {
    CollapseForm(s);
    CollapseAll(s, c => IsAlnum(c) || IsSeparator(c));
  }

  // --- packages -----------------------------------------------------------------------------

  predicate Sha256Form(s: string) { |s| == 64 && All(s, IsHex) }

  // ResolvedPackage's own checks, and what the parser guarantees beyond them.
  ghost predicate GoodPackage(p: Package) {
    && p.name != "" && Free(p.name, '=') && NormalizeName(p.name) == p.name
    && p.version != "" && p.requirement == p.name + "==" + p.version
    && p.hashes != [] && Sorted(p.hashes) && Distinct(p.hashes)
    && forall i :: 0 <= i < |p.hashes| ==> Sha256Form(p.hashes[i])
  }

  lemma {:induction false} HashesAreDistinct(tokens: seq<string>)
    requires HashesFrom(tokens).Some?
    ensures Distinct(HashesFrom(tokens).value)
    ensures forall i :: 0 <= i < |HashesFrom(tokens).value| ==> Sha256Form(HashesFrom(tokens).value[i])
  {
    if |tokens| > 0 { HashesAreDistinct(tokens[..|tokens| - 1]); }
  }

  lemma HashesAreGood(tokens: seq<string>)
    requires HashesOf(tokens).Some?
    ensures var h := HashesOf(tokens).value;
            h != [] && Sorted(h) && Distinct(h) && forall i :: 0 <= i < |h| ==> Sha256Form(h[i])
  {
    var digests := HashesFrom(tokens).value;
    HashesAreDistinct(tokens);
    SortDistinct(digests);
    forall i | 0 <= i < |Sort(digests)| ensures Sha256Form(Sort(digests)[i]) {
      assert Sort(digests)[i] in Sort(digests);
      assert Sort(digests)[i] in digests;
    }
  }

  lemma LineGivesGoodPackage(line: string)
    requires ParseRequirementLine(line).Ok?
    ensures GoodPackage(ParseRequirementLine(line).value)
  {
    var tokens := Tokens(line);
    var eq := IndexOf(tokens[0], '=');
    NormalizedForm(tokens[0][..eq]);
    NormalizeIdempotent(tokens[0][..eq]);
    HashesAreGood(tokens[1..]);
  }

  ghost predicate GoodPackages(packages: seq<Package>) {
    && DistinctBy(packages, NameOf)
    && forall i :: 0 <= i < |packages| ==> GoodPackage(packages[i])
  }

  lemma LineKeepsGoodPackages(packages: seq<Package>, line: string)
    requires GoodPackages(packages) && NextPackage(packages, line).Ok?
    ensures GoodPackages(NextPackage(packages, line).value)
  {
    if !StartsWith(line, "#") { LineGivesGoodPackage(line); }
  }

  lemma {:induction false} LinesGiveGoodPackages(lines: seq<string>)
    requires PackagesFrom(lines).Ok?
    ensures GoodPackages(PackagesFrom(lines).value)
  {
    if |lines| > 0 {
      var n := |lines| - 1;
      LinesGiveGoodPackages(lines[..n]);
      LineKeepsGoodPackages(PackagesFrom(lines[..n]).value, lines[n]);
    }
  }

  lemma ResolutionIsGood(text: string)
    requires ResolutionOf(text).Ok?
    ensures var packages := ResolutionOf(text).value;
            packages != [] && GoodPackages(packages) && SortedBy(packages, NameOf)
  {
    var packages := PackagesFrom(LogicalOf(text)).value;
    LinesGiveGoodPackages(LogicalOf(text));
    SortByDistinct(packages, NameOf);
    SortBySorts(packages, NameOf);
    SortByMembers(packages, NameOf);
    var sorted := SortBy(packages, NameOf);
    forall i | 0 <= i < |sorted| ensures GoodPackage(sorted[i]) {
      var k := Locate(sorted[i], sorted, packages);
    }
  }

  // --- the records --------------------------------------------------------------------------

  datatype Candidate = Candidate(
    name: string, version: string, requirement: string, hashes: seq<string>, executable: string)

  datatype CandidateLock = CandidateLock(
    excludeNewer: string, packages: seq<Package>, candidates: seq<Candidate>, rawSize: nat, lines: seq<string>)

  // One requirement line of the evidence.
  function EvidenceLine(p: Package): string { p.requirement + " " + HashList(p.hashes) }

  function HashList(hashes: seq<string>): string {
    if |hashes| == 0 then ""
    else if |hashes| == 1 then "sha256:" + hashes[0]
    else "sha256:" + hashes[0] + " " + HashList(hashes[1..])
  }

  function EvidenceLines(packages: seq<Package>): seq<string> {
    seq(|packages|, i requires 0 <= i < |packages| => EvidenceLine(packages[i]))
  }

  // LockEvidence.derive_lines
  function DeriveLines(packages: seq<Package>): seq<string> { Sort(EvidenceLines(packages)) }

  predicate TimeForm(s: string) {
    && |s| == 20 && s[4] == '-' && s[7] == '-' && s[10] == 'T' && s[13] == ':' && s[16] == ':' && s[19] == 'Z'
    && Digits(s[0..4]) && Digits(s[5..7]) && Digits(s[8..10])
    && Digits(s[11..13]) && Digits(s[14..16]) && Digits(s[17..19])
  }

  // What the request accepts is TimeForm; the lock record also bounds the clock fields.
  predicate UtcForm(s: string) {
    && TimeForm(s)
    && (s[11] < '2' || (s[11] == '2' && s[12] <= '3')) && s[14] <= '5' && s[17] <= '5'
  }

  predicate HashesAccepted(hashes: seq<string>) {
    hashes != [] && (forall i :: 0 <= i < |hashes| ==> Sha256Form(hashes[i])) && Distinct(hashes) && Sorted(hashes)
  }

  function Position(packages: seq<Package>, name: string): (i: nat)
    ensures i <= |packages|
    ensures i < |packages| ==> packages[i].name == name
    ensures i == |packages| ==> !HasName(packages, name)
  {
    if |packages| == 0 || packages[0].name == name then 0 else 1 + Position(packages[1..], name)
  }

  // ResolvedPackage.__post_init__
  predicate PackageAccepts(p: Package) {
    p.name != "" && p.version != "" && p.requirement != "" && HashesAccepted(p.hashes)
  }

  // CandidatePackage.__post_init__ and the lock's checks of one candidate.
  predicate CandidateAccepts(packages: seq<Package>, c: Candidate) {
    && c.name != "" && c.version != "" && c.requirement != "" && HashesAccepted(c.hashes)
    && c.executable != "" && c.executable[0] != '/'
    && HasName(packages, c.name)
    && var p := packages[Position(packages, c.name)];
    && (p.version, p.requirement, p.hashes) == (c.version, c.requirement, c.hashes)
    && c.requirement == c.name + "==" + c.version
  }

  // LockEvidence.__post_init__
  predicate EvidenceAccepts(rawSize: nat, lines: seq<string>) {
    && rawSize >= 1 && lines != []
    && (forall i :: 0 <= i < |lines| ==> lines[i] != "") && Distinct(lines) && Sorted(lines)
  }

  // CandidateLock.__post_init__, with every record it is made of.
  predicate LockAccepts(lock: CandidateLock) {
    && UtcForm(lock.excludeNewer)
    && lock.packages != [] && (forall i :: 0 <= i < |lock.packages| ==> PackageAccepts(lock.packages[i]))
    && DistinctBy(lock.packages, NameOf) && SortedBy(lock.packages, NameOf)
    && |lock.candidates| == 2 && lock.candidates[0].name == "pyrefly" && lock.candidates[1].name == "ty"
    && CandidateAccepts(lock.packages, lock.candidates[0]) && CandidateAccepts(lock.packages, lock.candidates[1])
    && EvidenceAccepts(lock.rawSize, lock.lines)
    && lock.lines == DeriveLines(lock.packages)
  }

  datatype Build = NotParsed | Missing | RecordRefused | Built(lock: CandidateLock)

  function CandidateOf(packages: seq<Package>, name: string): Candidate
    requires HasName(packages, name)
  {
    var p := packages[Position(packages, name)];
    Candidate(p.name, p.version, p.requirement, p.hashes, "bin/" + name)
  }

  predicate HasCandidates(packages: seq<Package>) { HasName(packages, "pyrefly") && HasName(packages, "ty") }

  function LockOf(text: string, excludeNewer: string, packages: seq<Package>): CandidateLock
    requires HasCandidates(packages)
  {
    CandidateLock(excludeNewer, packages, [CandidateOf(packages, "pyrefly"), CandidateOf(packages, "ty")],
                  |text|, DeriveLines(packages))
  }

  // _build_lock
  function BuildLock(text: string, excludeNewer: string): Build {
    var resolution := ResolutionOf(text);
    if !resolution.Ok? then NotParsed
    else if !HasCandidates(resolution.value) then Missing
    else
      var lock := LockOf(text, excludeNewer, resolution.value);
      if LockAccepts(lock) then Built(lock) else RecordRefused
  }

  // --- evidence lines -----------------------------------------------------------------------

  // The first equals sign of an evidence line ends the name.
  lemma LineTellsName(p: Package)
    requires GoodPackage(p)
    ensures IndexOf(EvidenceLine(p), '=') == |p.name| && EvidenceLine(p)[..|p.name|] == p.name
  {
    var line := EvidenceLine(p);
    assert line[..|p.name|] == p.name;
    assert line[|p.name|] == '=';
  }

  lemma EvidenceIsDistinct(packages: seq<Package>)
    requires GoodPackages(packages)
    ensures Distinct(EvidenceLines(packages))
  {
    var lines := EvidenceLines(packages);
    forall i, j | 0 <= i < j < |lines| ensures lines[i] != lines[j] {
      LineTellsName(packages[i]);
      LineTellsName(packages[j]);
      assert NameOf(packages[i]) != NameOf(packages[j]);
    }
  }

  lemma EvidenceIsAccepted(packages: seq<Package>, rawSize: nat)
    requires GoodPackages(packages) && packages != [] && rawSize >= 1
    ensures EvidenceAccepts(rawSize, DeriveLines(packages))
  {
    var lines := EvidenceLines(packages);
    EvidenceIsDistinct(packages);
    SortDistinct(lines);
    forall i | 0 <= i < |DeriveLines(packages)| ensures DeriveLines(packages)[i] != "" {
      assert DeriveLines(packages)[i] in DeriveLines(packages);
      assert DeriveLines(packages)[i] in lines;
      var k :| 0 <= k < |lines| && lines[k] == DeriveLines(packages)[i];
      assert lines[k] == EvidenceLine(packages[k]);
    }
  }

  lemma EmptyTextHasNoPackages()
    ensures !ResolutionOf("").Ok?
  {
    assert SplitLines("") == [];
    assert LogicalOf("") == [];
  }

  lemma CandidateIsAccepted(packages: seq<Package>, name: string)
    requires GoodPackages(packages) && HasName(packages, name) && name != ""
    ensures CandidateAccepts(packages, CandidateOf(packages, name))
  {
    var p := packages[Position(packages, name)];
    assert GoodPackage(p);
  }

  lemma LockIsAccepted(text: string, excludeNewer: string, packages: seq<Package>)
    requires text != "" && packages != [] && HasCandidates(packages)
    requires GoodPackages(packages) && SortedBy(packages, NameOf)
    ensures LockAccepts(LockOf(text, excludeNewer, packages)) <==> UtcForm(excludeNewer)
  {
    EvidenceIsAccepted(packages, |text|);
    CandidateIsAccepted(packages, "pyrefly");
    CandidateIsAccepted(packages, "ty");
    forall i | 0 <= i < |packages| ensures PackageAccepts(packages[i]) {
      assert GoodPackage(packages[i]);
    }
  }

  /**
   * Whenever the lock parses to packages with both candidates, the records are never refused,
   * except for one reason: the request accepts timestamps the lock record does not.
   */
  lemma RecordsNeverRefuse(text: string, excludeNewer: string)
    requires ResolutionOf(text).Ok? && HasCandidates(ResolutionOf(text).value)
    ensures BuildLock(text, excludeNewer).RecordRefused? <==> !UtcForm(excludeNewer)
    ensures GoodPackages(ResolutionOf(text).value) && SortedBy(ResolutionOf(text).value, NameOf)
  {
    ResolutionIsGood(text);
    if text == "" {
      EmptyTextHasNoPackages();
    } else {
      LockIsAccepted(text, excludeNewer, ResolutionOf(text).value);
    }
  }

  // The gap is real: a well-formed time with hour 25 passes the request and not the record.
  lemma TimestampGap()
    ensures TimeForm("2026-01-01T25:00:00Z") && !UtcForm("2026-01-01T25:00:00Z")
  {
    var s := "2026-01-01T25:00:00Z";
    assert s[0..4] == "2026" && s[5..7] == "01" && s[8..10] == "01";
    assert s[11..13] == "25" && s[14..16] == "00" && s[17..19] == "00";
  }

  // --- the unguarded index ------------------------------------------------------------------

  lemma {:induction false} NoTokensExactlyBlank(s: string, token: string)
    ensures TokensFrom(s, token) == [] <==> token == "" && All(s, IsSpace)
  {
    if s != "" {
      if IsSpace(s[0]) { NoTokensExactlyBlank(s[1..], ""); } else { NoTokensExactlyBlank(s[1..], token + [s[0]]); }
      assert All(s, IsSpace) <==> IsSpace(s[0]) && All(s[1..], IsSpace) by {
        assert s == [s[0]] + s[1..];
      }
    }
  }

  // A line raises instead of being refused exactly when it is blank.
  lemma RaisesExactlyWhenBlank(line: string)
    ensures ParseRequirementLine(line).Raised? <==> All(line, IsSpace)
  {
    NoTokensExactlyBlank(line, "");
    if All(line, IsSpace) {
      forall i | 0 <= i <= |line| ensures !StartsWith(line[i..], ";") {
        if i < |line| { assert IsSpace(line[i]) && line[i..][0] == line[i]; }
      }
      if line != "" { assert IsSpace(line[0]); }
    }
  }

  // A blank line that is reached: everything before it parses.
  ghost predicate BlankAt(lines: seq<string>, k: nat) {
    k < |lines| && PackagesFrom(lines[..k]).Ok? && All(lines[k], IsSpace)
  }

  lemma {:induction false} RaisedHasBlank(lines: seq<string>) returns (k: nat)
    requires PackagesFrom(lines).Raised?
    ensures BlankAt(lines, k)
  {
    var n := |lines| - 1;
    RaisesExactlyWhenBlank(lines[n]);
    if PackagesFrom(lines[..n]).Raised? {
      k := RaisedHasBlank(lines[..n]);
      assert lines[..n][..k] == lines[..k];
    } else {
      k := n;
    }
  }

  lemma BlankRaises(lines: seq<string>, k: nat)
    requires BlankAt(lines, k)
    ensures PackagesFrom(lines).Raised?
  {
    var upTo := lines[..k + 1];
    RaisesExactlyWhenBlank(lines[k]);
    assert upTo[..k] == lines[..k];
    if lines[k] != "" { assert IsSpace(lines[k][0]); }
    assert PackagesFrom(upTo).Raised?;
    FailureStays(lines, k + 1);
  }

  // Parsing raises exactly when a blank logical line comes before anything that is refused.
  lemma ParsingRaisesExactly(text: string)
    ensures ResolutionOf(text).Raised? <==> exists k :: BlankAt(LogicalOf(text), k)
  {
    var lines := LogicalOf(text);
    if ResolutionOf(text).Raised? { var k := RaisedHasBlank(lines); }
    if k :| BlankAt(lines, k) { BlankRaises(lines, k); }
  }
}
