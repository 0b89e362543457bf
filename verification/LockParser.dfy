/**
 * Parsing a compiled requirements lock, and the record constructors its result feeds. The parser
 * refuses with an error of its own; one unguarded index can also raise.
 */
module LockParser {
  import opened Wrappers
  import opened Text

  // --- characters ---------------------------------------------------------------------------

  predicate IsSpace(c: char) {
    || '\t' <= c <= '\r' || '\U{1c}' <= c <= ' ' || c == '\U{85}' || c == '\U{a0}' || c == '\U{1680}'
    || '\U{2000}' <= c <= '\U{200a}' || c in {'\U{2028}', '\U{2029}', '\U{202f}', '\U{205f}', '\U{3000}'}
  }

  // Line boundaries of str.splitlines; a carriage return swallows the newline after it.
  predicate IsBreak(c: char) {
    '\n' <= c <= '\r' || '\U{1c}' <= c <= '\U{1e}' || c in {'\U{85}', '\U{2028}', '\U{2029}'}
  }

  predicate IsDigit(c: char) { '0' <= c <= '9' }
  predicate IsUpper(c: char) { 'A' <= c <= 'Z' }
  predicate IsAlnum(c: char) { IsDigit(c) || IsUpper(c) || 'a' <= c <= 'z' }
  predicate IsSeparator(c: char) { c == '-' || c == '_' || c == '.' }
  predicate IsHex(c: char) { IsDigit(c) || 'a' <= c <= 'f' }

  predicate All(s: string, p: char -> bool) { forall i :: 0 <= i < |s| ==> p(s[i]) }

  predicate Digits(s: string) { s != "" && All(s, IsDigit) }

  function Lower(s: string): string {
    seq(|s|, i requires 0 <= i < |s| => if IsUpper(s[i]) then s[i] - 'A' + 'a' else s[i])
  }

  // The first index of a character, or the length.
  function IndexOf(s: string, c: char): (i: nat)
    ensures i <= |s|
    ensures i < |s| ==> s[i] == c
    ensures forall k :: 0 <= k < i ==> s[k] != c
  {
    if s == "" || s[0] == c then 0 else 1 + IndexOf(s[1..], c)
  }

  predicate Contains(s: string, needle: string) { exists i :: 0 <= i <= |s| && StartsWith(s[i..], needle) }

  function StripLeft(s: string): string { if s != "" && IsSpace(s[0]) then StripLeft(s[1..]) else s }

  function StripRight(s: string): string {
    if s != "" && IsSpace(s[|s| - 1]) then StripRight(s[..|s| - 1]) else s
  }

  function Strip(s: string): string { StripRight(StripLeft(s)) }

  function SplitLines(s: string): seq<string> { LinesFrom(s, "") }

  function LinesFrom(s: string, line: string): seq<string> {
    if s == "" then (if line == "" then [] else [line])
    else if IsBreak(s[0]) then
      [line] + LinesFrom(if s[0] == '\r' && |s| > 1 && s[1] == '\n' then s[2..] else s[1..], "")
    else LinesFrom(s[1..], line + [s[0]])
  }

  // str.split(): maximal runs of non-space characters.
  function Tokens(s: string): seq<string> { TokensFrom(s, "") }

  function TokensFrom(s: string, token: string): seq<string> {
    if s == "" then (if token == "" then [] else [token])
    else if IsSpace(s[0]) then (if token == "" then [] else [token]) + TokensFrom(s[1..], "")
    else TokensFrom(s[1..], token + [s[0]])
  }

  // --- logical lines ------------------------------------------------------------------------

  // The lines finished so far, and the continuation still open.
  datatype Folding = Folding(lines: seq<string>, buffer: string)

  function FoldLine(f: Folding, raw: string): Folding {
    var stripped := Strip(raw);
    if EndsWith(stripped, "\\") then Folding(f.lines, f.buffer + Strip(DropLast(stripped)) + " ")
    else if f.buffer + stripped == "" then Folding(f.lines, "")
    else Folding(f.lines + [f.buffer + stripped], "")
  }

  function FoldLines(raws: seq<string>): Folding {
    if |raws| == 0 then Folding([], "") else FoldLine(FoldLines(raws[..|raws| - 1]), raws[|raws| - 1])
  }

  function DropLast(s: string): string { if s == "" then s else s[..|s| - 1] }

  function LogicalOf(text: string): seq<string> {
    var f := FoldLines(SplitLines(text));
    if Strip(f.buffer) == "" then f.lines else f.lines + [Strip(f.buffer)]
  }

  // _logical_lines
  method LogicalLines(text: string) returns (lines: seq<string>)
    ensures lines == LogicalOf(text)
  {
    var raws := SplitLines(text);
    lines := [];
    var buffer := "";
    for k := 0 to |raws|
      invariant FoldLines(raws[..k]) == Folding(lines, buffer)
    {
      assert raws[..k + 1][..k] == raws[..k];
      var stripped := Strip(raws[k]);
      if EndsWith(stripped, "\\") {
        buffer := buffer + Strip(DropLast(stripped)) + " ";
        continue;
      }
      buffer := buffer + stripped;
      if buffer != "" { lines := lines + [buffer]; }
      buffer := "";
    }
    assert raws[..|raws|] == raws;
    if Strip(buffer) != "" { lines := lines + [Strip(buffer)]; }
  }

  // --- names and versions -------------------------------------------------------------------

  // Runs of separators become one dash.
  function Collapse(s: string): string {
    if s == "" then ""
    else if !IsSeparator(s[0]) then [s[0]] + Collapse(s[1..])
    else if |s| > 1 && IsSeparator(s[1]) then Collapse(s[1..])
    else "-" + Collapse(s[1..])
  }

  // The name normalization of section "Normalized Names" of PEP 503.
  function NormalizeName(s: string): string { Lower(Collapse(s)) }

  predicate NameForm(s: string) { s != "" && IsAlnum(s[0]) && All(s, c => IsAlnum(c) || IsSeparator(c)) }

  // Final releases only: an optional epoch, dotted digits, an optional post release.
  predicate FinalVersion(s: string) {
    var bang := IndexOf(s, '!');
    if bang < |s| then Digits(s[..bang]) && ReleaseForm(Split(s[bang + 1..], '.'))
    else ReleaseForm(Split(s, '.'))
  }

  predicate ReleaseForm(parts: seq<string>)
    requires |parts| > 0
  {
    var n := |parts| - 1;
    && (forall i :: 0 <= i < n ==> Digits(parts[i]))
    && (Digits(parts[n]) || (n > 0 && StartsWith(parts[n], "post") && Digits(parts[n][4..])))
  }

  // --- requirements -------------------------------------------------------------------------

  datatype Package = Package(name: string, version: string, requirement: string, hashes: seq<string>)

  datatype Result<T> = Ok(value: T) | Refused | Raised   // Raised: an IndexError, not a refusal

  predicate HashForm(token: string) { StartsWith(token, "--hash=sha256:") && |token| == 78 && All(token[14..], IsHex) }

  // The digests in order, or a refusal.
  function HashesFrom(tokens: seq<string>): Option<seq<string>> {
    if |tokens| == 0 then Some([])
    else
      var before, last := HashesFrom(tokens[..|tokens| - 1]), tokens[|tokens| - 1];
      if before.None? || !HashForm(last) || last[14..] in before.value then None
      else Some(before.value + [last[14..]])
  }

  // _parse_hashes
  method ParseHashes(tokens: seq<string>) returns (hashes: Option<seq<string>>)
    ensures hashes == HashesOf(tokens)
  {
    var digests: seq<string> := [];
    for k := 0 to |tokens|
      invariant HashesFrom(tokens[..k]) == Some(digests)
    {
      assert tokens[..k + 1][..k] == tokens[..k];
      if !HashForm(tokens[k]) || tokens[k][14..] in digests {
        NoHashesAfter(tokens, k + 1);
        return None;
      }
      digests := digests + [tokens[k][14..]];
    }
    assert tokens[..|tokens|] == tokens;
    if |digests| == 0 { return None; }
    return Some(Sort(digests));
  }

  lemma {:induction false} NoHashesAfter(tokens: seq<string>, k: nat)
    requires k <= |tokens| && HashesFrom(tokens[..k]).None?
    ensures HashesFrom(tokens).None?
    decreases |tokens|
  {
    if k == |tokens| {
      assert tokens[..k] == tokens;
    } else {
      assert tokens[..|tokens| - 1][..k] == tokens[..k];
      NoHashesAfter(tokens[..|tokens| - 1], k);
    }
  }

  function HashesOf(tokens: seq<string>): Option<seq<string>> {
    var digests := HashesFrom(tokens);
    if digests.None? || |digests.value| == 0 then None else Some(Sort(digests.value))
  }

  // _parse_requirement_line
  function ParseRequirementLine(line: string): Result<Package> {
    if Contains(line, ";") || StartsWith(line, "-e ") || StartsWith(line, "--editable") then Refused
    else
      var tokens := Tokens(line);
      if |tokens| == 0 then Raised
      else
        var requirement := tokens[0];
        if StartsWith(requirement, "-") || Contains(requirement, "@") || Contains(line, "://")
           || StartsWith(requirement, "http") || StartsWith(requirement, "file:") then Refused
        else
          var eq := IndexOf(requirement, '=');
          if !NameForm(requirement[..eq]) || !StartsWith(requirement[eq..], "==") || |requirement| == eq + 2
          then Refused
          else
            var name, version := NormalizeName(requirement[..eq]), requirement[eq + 2..];
            var hashes := HashesOf(tokens[1..]);
            if !FinalVersion(version) || hashes.None? then Refused
            else Ok(Package(name, version, name + "==" + version, hashes.value))
  }

  // One more line: comments are skipped, duplicates refused.
  function NextPackage(packages: seq<Package>, line: string): Result<seq<Package>> {
    if StartsWith(line, "#") then Ok(packages)
    else
      match ParseRequirementLine(line)
      case Refused => Refused
      case Raised => Raised
      case Ok(package) => if HasName(packages, package.name) then Refused else Ok(packages + [package])
  }

  // The packages of some lines, in order.
  function PackagesFrom(lines: seq<string>): Result<seq<Package>> {
    if |lines| == 0 then Ok([])
    else
      var before := PackagesFrom(lines[..|lines| - 1]);
      if before.Ok? then NextPackage(before.value, lines[|lines| - 1]) else before
  }

  predicate HasName(packages: seq<Package>, name: string) {
    exists i :: 0 <= i < |packages| && packages[i].name == name
  }

  function NameOf(package: Package): string { package.name }

  function ResolutionOf(text: string): Result<seq<Package>> {
    match PackagesFrom(LogicalOf(text))
    case Refused => Refused
    case Raised => Raised
    case Ok(packages) => if |packages| == 0 then Refused else Ok(SortBy(packages, NameOf))
  }

  // _parse_resolution
  method ParseResolution(text: string) returns (resolution: Result<seq<Package>>)
    ensures resolution == ResolutionOf(text)
  {
    var lines := LogicalLines(text);
    resolution := ParseLines(lines);
    if !resolution.Ok? { return; }
    if |resolution.value| == 0 { return Refused; }
    return Ok(SortBy(resolution.value, NameOf));
  }

  // Its loop over the logical lines.
  method ParseLines(lines: seq<string>) returns (parsed: Result<seq<Package>>)
    ensures parsed == PackagesFrom(lines)
  {
    var packages: seq<Package>, seen: set<string> := [], {};
    for k := 0 to |lines|
      invariant PackagesFrom(lines[..k]) == Ok(packages)
      invariant forall name :: name in seen <==> HasName(packages, name)
    {
      PackagesStep(lines, k, packages);
      var next, seen' := AddLine(packages, seen, lines[k]);
      if !next.Ok? {
        FailureStays(lines, k + 1);
        return next;
      }
      packages, seen := next.value, seen';
    }
    assert lines[..|lines|] == lines;
    parsed := Ok(packages);
  }

  // The body of the loop: the set of names seen stands for the packages.
  method AddLine(packages: seq<Package>, seen: set<string>, line: string)
    returns (next: Result<seq<Package>>, seen': set<string>)
    requires forall name :: name in seen <==> HasName(packages, name)
    ensures next == NextPackage(packages, line)
    ensures next.Ok? ==> forall name :: name in seen' <==> HasName(next.value, name)
  {
    if StartsWith(line, "#") { return Ok(packages), seen; }
    var parsed := ParseRequirementLine(line);
    if parsed.Refused? { return Refused, seen; }
    if parsed.Raised? { return Raised, seen; }
    if parsed.value.name in seen { return Refused, seen; }
    NamesExtend(packages, parsed.value);
    return Ok(packages + [parsed.value]), seen + {parsed.value.name};
  }

  lemma PackagesStep(lines: seq<string>, k: nat, packages: seq<Package>)
    requires k < |lines| && PackagesFrom(lines[..k]) == Ok(packages)
    ensures PackagesFrom(lines[..k + 1]) == NextPackage(packages, lines[k])
  {
    assert lines[..k + 1][..k] == lines[..k];
  }

  lemma NamesExtend(packages: seq<Package>, package: Package)
    ensures forall name :: HasName(packages + [package], name) <==> HasName(packages, name) || name == package.name
  {
    forall name ensures HasName(packages + [package], name) <==> HasName(packages, name) || name == package.name {
      if HasName(packages, name) {
        var i :| 0 <= i < |packages| && packages[i].name == name;
        assert (packages + [package])[i].name == name;
      }
      assert (packages + [package])[|packages|].name == package.name;
    }
  }

  lemma {:induction false} FailureStays(lines: seq<string>, k: nat)
    requires k <= |lines| && !PackagesFrom(lines[..k]).Ok?
    ensures PackagesFrom(lines) == PackagesFrom(lines[..k])
    decreases |lines|
  {
    if k == |lines| {
      assert lines[..k] == lines;
    } else {
      assert lines[..|lines| - 1][..k] == lines[..k];
      FailureStays(lines[..|lines| - 1], k);
    }
  }
}
