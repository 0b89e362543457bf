/** What the parser accepts, said without it: the alphabets, the lines, the pins and the names. */
module RequirementLines {
  import opened Wrappers
  import opened Text
  import opened LockParser
  import opened LockRecords
  import opened LockRoundTrip
  import opened Versions

  const UPPER := "ABCDEFGHIJKLMNOPQRSTUVWXYZ"
  const LOWER := "abcdefghijklmnopqrstuvwxyz"
  const DIGITS := "0123456789"

  // --- alphabets ----------------------------------------------------------------------------

  lemma UpperAre(c: char)
    ensures c in UPPER <==> IsUpper(c)
  {
    if IsUpper(c) { assert UPPER[(c - 'A') as int] == c; }
  }

  lemma UpperAt(k: nat)
    requires k < 26
    ensures UPPER[k] == 'A' + k as char
  {
  }

  lemma LowerAt(k: nat)
    requires k < 26
    ensures LOWER[k] == 'a' + k as char
  {
  }

  lemma LowerAre(c: char)
    ensures c in LOWER <==> 'a' <= c <= 'z'
  {
    if 'a' <= c <= 'z' { assert LOWER[(c - 'a') as int] == c; }
  }

  // A letter or digit of a project name.
  predicate Alphanumeric(c: char) { c in UPPER || c in LOWER || c in DIGITS }

  predicate Separator(c: char) { c in "-_." }

  lemma AlphanumericIs(c: char)
    ensures Alphanumeric(c) <==> IsAlnum(c)
  {
    UpperAre(c);
    LowerAre(c);
    DigitsAre(c);
  }

  // A project name before normalization.
  predicate ProjectName(s: string) {
    s != "" && Alphanumeric(s[0]) && forall i :: 0 <= i < |s| ==> Alphanumeric(s[i]) || Separator(s[i])
  }

  lemma ProjectNamesAre(s: string)
    ensures NameForm(s) <==> ProjectName(s)
  {
    forall c: char ensures Alphanumeric(c) <==> IsAlnum(c) { AlphanumericIs(c); }
    assert forall c :: Separator(c) <==> IsSeparator(c);
  }

  // A SHA-256 digest as it is written.
  predicate Hexadecimal(hash: string) { |hash| == 64 && forall i :: 0 <= i < |hash| ==> hash[i] in "0123456789abcdef" }

  lemma HexadecimalIsHash(hash: string)
    ensures Hexadecimal(hash) <==> Sha256Form(hash)
  {
    forall c: char ensures c in "0123456789abcdef" <==> IsHex(c) { HexAre(c); }
  }

  lemma HexAre(c: char)
    ensures c in "0123456789abcdef" <==> IsHex(c)
  {
    if IsDigit(c) { assert "0123456789abcdef"[(c - '0') as int] == c; }
    if 'a' <= c <= 'f' { assert "0123456789abcdef"[(c - 'a') as int + 10] == c; }
  }

  // What str.isspace holds for.
  const WHITESPACE: set<char> := {
    '\t', '\n', '\U{0b}', '\U{0c}', '\r', '\U{1c}', '\U{1d}', '\U{1e}', '\U{1f}', ' ', '\U{85}', '\U{a0}', '\U{1680}',
    '\U{2000}', '\U{2001}', '\U{2002}', '\U{2003}', '\U{2004}', '\U{2005}', '\U{2006}', '\U{2007}', '\U{2008}',
    '\U{2009}', '\U{200a}', '\U{2028}', '\U{2029}', '\U{202f}', '\U{205f}', '\U{3000}'}

  lemma SpacesAre(c: char)
    ensures IsSpace(c) <==> c in WHITESPACE
  {
  }

  // --- lines --------------------------------------------------------------------------------

  // The ends of a line that str.splitlines knows, but for the two-character one.
  const ENDS: set<char> := {
    '\n', '\U{0b}', '\U{0c}', '\r', '\U{1c}', '\U{1d}', '\U{1e}', '\U{85}', '\U{2028}', '\U{2029}'}

  lemma BreaksAre(c: char)
    ensures IsBreak(c) <==> c in ENDS
  {
  }

  ghost predicate Unbroken(line: string) { forall i :: 0 <= i < |line| ==> line[i] !in ENDS }

  // The text is these lines, each with its end; only the last may lack one, and then it is not
  // empty. A carriage return with a newline after it is one end.
  ghost predicate Spells(text: string, lines: seq<string>, ends: seq<string>)
    decreases |lines|
  {
    if |lines| == 0 then text == "" && ends == []
    else
      && |ends| > 0 && Unbroken(lines[0])
      && if ends == [""] then text == lines[0] != "" && |lines| == 1
         else
           && (ends[0] == "\r\n" || (|ends[0]| == 1 && ends[0][0] in ENDS))
           && StartsWith(text, lines[0] + ends[0])
           && (ends[0] == "\r" ==> !StartsWith(text, lines[0] + "\r\n"))
           && Spells(text[|lines[0] + ends[0]|..], lines[1..], ends[1..])
  }

  // splitlines of an end.
  lemma AfterEnd(end: string, rest: string, line: string)
    requires end == "\r\n" || (|end| == 1 && end[0] in ENDS && (end == "\r" ==> !StartsWith(rest, "\n")))
    ensures LinesFrom(end + rest, line) == [line] + LinesFrom(rest, "")
  {
    BreaksAre(end[0]);
    if end == "\r\n" {
      assert (end + rest)[2..] == rest;
    } else {
      assert (end + rest)[1..] == rest;
      if |rest| > 0 { assert rest[..1] == [rest[0]]; }
    }
  }

  lemma NewlineFollows(text: string, line: string, rest: string)
    requires text == line + "\r" + rest
    ensures StartsWith(text, line + "\r\n") <==> StartsWith(rest, "\n")
  {
    if rest != "" {
      assert rest[..1] == [rest[0]];
      assert text[..|line| + 2] == line + "\r" + [rest[0]];
      assert (line + "\r\n")[|line| + 1] == '\n';
      assert rest[0] == '\n' ==> line + "\r" + [rest[0]] == line + "\r\n";
    }
  }

  lemma {:induction false} SpelledSplits(text: string, lines: seq<string>, ends: seq<string>)
    requires Spells(text, lines, ends)
    ensures SplitLines(text) == lines
    decreases |lines|
  {
    if |lines| > 0 {
      var line, end := lines[0], ends[0];
      forall i | 0 <= i < |line| ensures !IsBreak(line[i]) { BreaksAre(line[i]); }
      if ends == [""] {
        LineGrows(line, "", "");
        assert line + "" == line && "" + line == line;
      } else {
        var rest := text[|line + end|..];
        assert text == line + (end + rest);
        LineGrows(line, end + rest, "");
        assert "" + line == line;
        assert end == "\r" && StartsWith(rest, "\n") ==> StartsWith(text, line + "\r\n") by {
          if end == "\r" && StartsWith(rest, "\n") { NewlineFollows(text, line, rest); }
        }
        AfterEnd(end, rest, line);
        SpelledSplits(rest, lines[1..], ends[1..]);
        assert lines == [line] + lines[1..];
      }
    }
  }

  lemma {:induction false} EndsExist(s: string, line: string) returns (ends: seq<string>)
    requires Unbroken(line)
    ensures Spells(line + s, LinesFrom(s, line), ends)
    decreases |s|
  {
    if s == "" {
      assert line + s == line;
      ends := if line == "" then [] else [""];
    } else {
      BreaksAre(s[0]);
      if IsBreak(s[0]) {
        var end := if s[0] == '\r' && |s| > 1 && s[1] == '\n' then "\r\n" else [s[0]];
        var rest := s[|end|..];
        var more := EndsExist(rest, "");
        ends := [end] + more;
        EndSpells(line, end, rest, LinesFrom(rest, ""), more);
        assert line + end + rest == line + s;
      } else {
        assert line + s == line + [s[0]] + s[1..];
        ends := EndsExist(s[1..], line + [s[0]]);
      }
    }
  }

  lemma EndSpells(line: string, end: string, rest: string, lines: seq<string>, ends: seq<string>)
    requires Unbroken(line) && Spells("" + rest, lines, ends)
    requires end == "\r\n" || (|end| == 1 && end[0] in ENDS && (end == "\r" ==> |rest| == 0 || rest[0] != '\n'))
    ensures Spells(line + end + rest, [line] + lines, [end] + ends)
  {
    var text := line + end + rest;
    assert "" + rest == rest && text[..|line + end|] == line + end && text[|line + end|..] == rest;
    assert ([line] + lines)[1..] == lines && ([end] + ends)[1..] == ends;
    if end == "\r" { NewlineFollows(text, line, rest); }
  }

  // Those are the lines of the text, with some ends.
  ghost predicate LinesOf(text: string, lines: seq<string>) { exists ends :: Spells(text, lines, ends) }

  // str.splitlines takes a text apart at its line ends, and only there.
  lemma SplitLinesExactly(text: string, lines: seq<string>)
    ensures SplitLines(text) == lines <==> LinesOf(text, lines)
  {
    if ends :| Spells(text, lines, ends) { SpelledSplits(text, lines, ends); }
    if SplitLines(text) == lines {
      var ends := EndsExist(text, "");
      assert "" + text == text;
    }
  }

  // --- names --------------------------------------------------------------------------------

  // Letters in lower case, and everything else as it is.
  ghost predicate Lowered(c: char, d: char) {
    (exists k :: 0 <= k < 26 && c == UPPER[k] && d == LOWER[k]) || (c !in UPPER && d == c)
  }

  // A name without separators is lowered letter by letter.
  lemma WordIsLowered(w: string)
    requires forall i :: 0 <= i < |w| ==> !Separator(w[i])
    ensures |NormalizeName(w)| == |w| && forall i :: 0 <= i < |w| ==> Lowered(w[i], NormalizeName(w)[i])
  {
    CollapsedStays(w);
    forall i | 0 <= i < |w| ensures Lowered(w[i], NormalizeName(w)[i]) {
      UpperAre(w[i]);
      if IsUpper(w[i]) {
        UpperAt((w[i] - 'A') as int);
        LowerAt((w[i] - 'A') as int);
      }
    }
  }

  lemma {:induction false} RunCollapses(run: string, b: string)
    requires run != "" && forall i :: 0 <= i < |run| ==> Separator(run[i])
    requires b != "" ==> !Separator(b[0])
    ensures Collapse(run + b) == "-" + Collapse(b)
    decreases |run|
  {
    assert (run + b)[1..] == run[1..] + b;
    if |run| > 1 {
      RunCollapses(run[1..], b);
    } else {
      assert run[1..] + b == b;
    }
  }

  lemma {:induction false} CollapseSplits(a: string, run: string, b: string)
    requires run != "" && forall i :: 0 <= i < |run| ==> Separator(run[i])
    requires (a != "" ==> !Separator(a[|a| - 1])) && (b != "" ==> !Separator(b[0]))
    ensures Collapse(a + run + b) == Collapse(a) + "-" + Collapse(b)
    decreases |a|
  {
    if a == "" {
      assert a + run + b == run + b;
      RunCollapses(run, b);
    } else {
      var s := a + run + b;
      assert s[0] == a[0] && s[1..] == a[1..] + run + b;
      CollapseSplits(a[1..], run, b);
      if |a| > 1 { assert s[1] == a[1]; }
    }
  }

  // A run of separators between two parts of a name becomes one dash.
  lemma RunIsDash(a: string, run: string, b: string)
    requires run != "" && forall i :: 0 <= i < |run| ==> Separator(run[i])
    requires (a != "" ==> !Separator(a[|a| - 1])) && (b != "" ==> !Separator(b[0]))
    ensures NormalizeName(a + run + b) == NormalizeName(a) + "-" + NormalizeName(b)
  {
    CollapseSplits(a, run, b);
  }

  // --- one line -----------------------------------------------------------------------------

  /**
   * The line pins a package: its words are the name before normalization with two equals signs and
   * a final version, and then its digests, at least one and none twice.
   */
  ghost predicate Pins(line: string, raw: string, v: Version, digests: seq<string>, p: Package) {
    && ProjectName(raw) && !StartsWith(raw, "http") && v.Valid()
    && digests != [] && Distinct(digests) && (forall i :: 0 <= i < |digests| ==> Hexadecimal(digests[i]))
    && Tokens(line) == [raw + "==" + v.Text()] + HashTokens(digests)
    && p == Package(NormalizeName(raw), v.Text(), NormalizeName(raw) + "==" + v.Text(), Sort(digests))
  }

  lemma HttpIsInTheName(raw: string, rest: string)
    requires ProjectName(raw)
    ensures StartsWith(raw + "==" + rest, "http") <==> StartsWith(raw, "http")
  {
    var pin := raw + "==" + rest;
    if |raw| >= 4 {
      assert pin[..4] == raw[..4];
    } else {
      PrefixChar(pin, "http", |raw|);
    }
  }

  lemma DigestsAre(digests: seq<string>)
    ensures (forall i :: 0 <= i < |digests| ==> Hexadecimal(digests[i])) <==>
            forall i :: 0 <= i < |digests| ==> Sha256Form(digests[i])
  {
    forall i | 0 <= i < |digests| ensures Hexadecimal(digests[i]) <==> Sha256Form(digests[i]) {
      HexadecimalIsHash(digests[i]);
    }
  }

  lemma PinParses(line: string, raw: string, v: Version, digests: seq<string>, p: Package)
    requires Pins(line, raw, v, digests, p)
    ensures ParseRequirementLine(line) == Ok(p)
  {
    ProjectNamesAre(raw);
    FinalVersionsAre(v.Text());
    DigestsAre(digests);
    var spelled := Package(raw, v.Text(), raw + "==" + v.Text(), digests);
    SpelledParses(line, spelled);
  }

  lemma SpelledParses(line: string, p: Package)
    requires Spelled(p) && Tokens(line) == PackageWords(p) && p.hashes != [] && Distinct(p.hashes)
    requires ProjectName(p.name) && !StartsWith(p.name, "http")
    ensures ParseRequirementLine(line) ==
            Ok(Package(NormalizeName(p.name), p.version, NormalizeName(p.name) + "==" + p.version, Sort(p.hashes)))
  {
    LinePasses(p, line);
    HashTokensParse(p.hashes);
    HttpIsInTheName(p.name, p.version);
    assert PackageWords(p)[1..] == HashTokens(p.hashes);
    PassedParses(line, p);
  }

  lemma PassedParses(line: string, p: Package)
    requires Spelled(p) && |Tokens(line)| > 0 && Tokens(line)[0] == p.requirement
    requires !Contains(line, ";") && !Contains(line, "://") && !Contains(p.requirement, "@")
    requires !StartsWith(line, "-e ") && !StartsWith(line, "--editable") && !StartsWith(p.requirement, "-")
    requires !StartsWith(p.requirement, "file:") && !StartsWith(p.requirement, "http")
    requires HashesFrom(Tokens(line)[1..]) == Some(p.hashes) && p.hashes != []
    ensures ParseRequirementLine(line) ==
            Ok(Package(NormalizeName(p.name), p.version, NormalizeName(p.name) + "==" + p.version, Sort(p.hashes)))
  {
    RequirementForm(p);
  }

  // The accepting path of the parser.
  lemma ParsedWords(line: string) returns (raw: string, version: string)
    requires ParseRequirementLine(line).Ok?
    ensures |Tokens(line)| > 0 && Tokens(line)[0] == raw + "==" + version
    ensures NameForm(raw) && FinalVersion(version) && !StartsWith(raw + "==" + version, "http")
    ensures HashesFrom(Tokens(line)[1..]).Some? && HashesFrom(Tokens(line)[1..]).value != []
    ensures ParseRequirementLine(line).value == Package(
              NormalizeName(raw), version, NormalizeName(raw) + "==" + version,
              Sort(HashesFrom(Tokens(line)[1..]).value))
  {
    var word := Tokens(line)[0];
    var eq := IndexOf(word, '=');
    raw, version := word[..eq], word[eq + 2..];
    PinComesApart(word, eq);
  }

  lemma ParsedPins(line: string) returns (raw: string, v: Version, digests: seq<string>)
    requires ParseRequirementLine(line).Ok?
    ensures Pins(line, raw, v, digests, ParseRequirementLine(line).value)
  {
    var words, version := Tokens(line), "";
    raw, version := ParsedWords(line);
    digests := HashesFrom(words[1..]).value;
    ProjectNamesAre(raw);
    HttpIsInTheName(raw, version);
    FinalVersionsAre(version);
    v :| v.Valid() && v.Text() == version;
    HashesComeFromTokens(words[1..]);
    HashesAreDistinct(words[1..]);
    DigestsAre(digests);
    assert words == [words[0]] + words[1..];
  }

  // A line is accepted, with this package, exactly when it pins it.
  lemma AcceptedExactlyWhenPinned(line: string, p: Package)
    ensures ParseRequirementLine(line) == Ok(p) <==> exists raw, v, digests :: Pins(line, raw, v, digests, p)
  {
    if ParseRequirementLine(line) == Ok(p) { var raw, v, digests := ParsedPins(line); }
    if raw, v, digests :| Pins(line, raw, v, digests, p) { PinParses(line, raw, v, digests, p); }
  }

  // --- all lines ----------------------------------------------------------------------------

  // The lines that are not comments.
  function Kept(lines: seq<string>): seq<string> {
    if |lines| == 0 then []
    else
      var line := lines[|lines| - 1];
      Kept(lines[..|lines| - 1]) + if line != "" && line[0] == '#' then [] else [line]
  }

  ghost predicate Each(lines: seq<string>, packages: seq<Package>) {
    |lines| == |packages| && forall i :: 0 <= i < |lines| ==> ParseRequirementLine(lines[i]) == Ok(packages[i])
  }

  lemma CommentIs(line: string)
    ensures StartsWith(line, "#") <==> line != "" && line[0] == '#'
  {
    if line != "" { assert line[..1] == [line[0]]; }
  }

  lemma DistinctAppend(packages: seq<Package>, p: Package)
    ensures DistinctBy(packages + [p], NameOf) <==> DistinctBy(packages, NameOf) && !HasName(packages, p.name)
  {
    var all := packages + [p];
    assert all[|packages|] == p;
    if DistinctBy(all, NameOf) {
      forall i, j | 0 <= i < j < |packages| ensures NameOf(packages[i]) != NameOf(packages[j]) {
        assert NameOf(all[i]) != NameOf(all[j]);
      }
      forall i | 0 <= i < |packages| ensures packages[i].name != p.name {
        assert NameOf(all[i]) != NameOf(all[|packages|]);
      }
    }
  }

  lemma EachAppend(lines: seq<string>, packages: seq<Package>, line: string, p: Package)
    ensures Each(lines + [line], packages + [p]) <==> Each(lines, packages) && ParseRequirementLine(line) == Ok(p)
  {
    if Each(lines + [line], packages + [p]) {
      forall i | 0 <= i < |lines| ensures ParseRequirementLine(lines[i]) == Ok(packages[i]) {
        assert (lines + [line])[i] == lines[i] && (packages + [p])[i] == packages[i];
      }
      assert (lines + [line])[|lines|] == line && (packages + [p])[|packages|] == p;
    }
  }

  // One more line that is no comment.
  lemma NextIs(before: seq<Package>, line: string, packages: seq<Package>)
    requires !StartsWith(line, "#")
    ensures NextPackage(before, line) == Ok(packages) <==>
            && |packages| == |before| + 1 && packages[..|before|] == before
            && ParseRequirementLine(line) == Ok(packages[|before|]) && !HasName(before, packages[|before|].name)
  {
    if |packages| > 0 { assert packages == packages[..|packages| - 1] + [packages[|packages| - 1]]; }
  }

  lemma NextIsEach(kept: seq<string>, before: seq<Package>, line: string, packages: seq<Package>)
    requires Each(kept, before) && DistinctBy(before, NameOf) && !StartsWith(line, "#")
    ensures NextPackage(before, line) == Ok(packages) ==> Each(kept + [line], packages) && DistinctBy(packages, NameOf)
  {
    if NextPackage(before, line) == Ok(packages) {
      NextIs(before, line, packages);
      var p := packages[|before|];
      assert packages == before + [p];
      EachAppend(kept, before, line, p);
      DistinctAppend(before, p);
    }
  }

  lemma EachIsNext(kept: seq<string>, line: string, packages: seq<Package>)
    requires Each(kept + [line], packages) && DistinctBy(packages, NameOf) && !StartsWith(line, "#")
    ensures |packages| > 0
    ensures var before := packages[..|packages| - 1];
            Each(kept, before) && DistinctBy(before, NameOf) && NextPackage(before, line) == Ok(packages)
  {
    var before, p := packages[..|packages| - 1], packages[|packages| - 1];
    assert packages == before + [p];
    EachAppend(kept, before, line, p);
    DistinctAppend(before, p);
    NextIs(before, line, packages);
  }

  lemma {:induction false} ParsedIsEach(lines: seq<string>)
    requires PackagesFrom(lines).Ok?
    ensures Each(Kept(lines), PackagesFrom(lines).value) && DistinctBy(PackagesFrom(lines).value, NameOf)
  {
    if |lines| > 0 {
      var n := |lines| - 1;
      var before := PackagesFrom(lines[..n]).value;
      ParsedIsEach(lines[..n]);
      CommentIs(lines[n]);
      if StartsWith(lines[n], "#") {
        assert Kept(lines) == Kept(lines[..n]);
      } else {
        NextIsEach(Kept(lines[..n]), before, lines[n], PackagesFrom(lines).value);
      }
    }
  }

  lemma {:induction false} EachIsParsed(lines: seq<string>, packages: seq<Package>)
    requires Each(Kept(lines), packages) && DistinctBy(packages, NameOf)
    ensures PackagesFrom(lines) == Ok(packages)
  {
    if |lines| > 0 {
      var n := |lines| - 1;
      CommentIs(lines[n]);
      if StartsWith(lines[n], "#") {
        assert Kept(lines) == Kept(lines[..n]);
        EachIsParsed(lines[..n], packages);
      } else {
        EachIsNext(Kept(lines[..n]), lines[n], packages);
        EachIsParsed(lines[..n], packages[..|packages| - 1]);
      }
    }
  }

  /**
   * A text resolves to these packages exactly when its logical lines that are no comments pin some
   * packages, at least one and no name twice, and these are those in the order of their names.
   */
  lemma ResolvesExactlyWhen(text: string, resolved: seq<Package>)
    ensures ResolutionOf(text) == Ok(resolved) <==>
            exists packages :: && packages != [] && DistinctBy(packages, NameOf)
                               && Each(Kept(LogicalOf(text)), packages) && resolved == SortBy(packages, NameOf)
  {
    var lines := LogicalOf(text);
    if ResolutionOf(text) == Ok(resolved) { ParsedIsEach(lines); }
    if packages :| && packages != [] && DistinctBy(packages, NameOf)
                   && Each(Kept(lines), packages) && resolved == SortBy(packages, NameOf) {
      EachIsParsed(lines, packages);
    }
  }
}
