/**
 * The parser against a printer: what comes back from a text that holds the words of a resolution,
 * and exactly when.
 */
module LockRoundTrip {
  import opened Wrappers
  import opened Text
  import opened LockParser
  import opened LockRecords
  import opened LineFolding

  // --- printing -----------------------------------------------------------------------------

  function HashTokens(hashes: seq<string>): seq<string> {
    seq(|hashes|, i requires 0 <= i < |hashes| => "--hash=sha256:" + hashes[i])
  }

  // The words that say a package: its pin and its hashes.
  function PackageWords(p: Package): seq<string> { [p.requirement] + HashTokens(p.hashes) }

  // --- characters ---------------------------------------------------------------------------

  // Every character a printed token can hold.
  predicate Plain(c: char) { IsAlnum(c) || IsSeparator(c) || c == '=' || c == '!' || c == ':' }

  predicate Spaced(c: char) { Plain(c) || IsSpace(c) }

  lemma AllAppend(a: string, b: string, p: char -> bool)
    requires All(a, p) && All(b, p)
    ensures All(a + b, p)
  {
  }

  lemma {:induction false} AllJoin(parts: seq<string>, sep: char, p: char -> bool)
    requires p(sep) && forall i :: 0 <= i < |parts| ==> All(parts[i], p)
    ensures All(Join(parts, sep), p)
  {
    if |parts| > 1 {
      AllJoin(parts[1..], sep, p);
      AllAppend(parts[0] + [sep], Join(parts[1..], sep), p);
    }
  }

  predicate VersionChar(c: char) { IsAlnum(c) || c == '.' || c == '!' }

  lemma ReleaseChars(s: string)
    requires ReleaseForm(Split(s, '.'))
    ensures All(s, VersionChar)
  {
    var parts := Split(s, '.');
    forall i | 0 <= i < |parts| ensures All(parts[i], VersionChar) {
      if !Digits(parts[i]) {
        assert parts[i] == parts[i][..4] + parts[i][4..];
        assert All(parts[i][..4], VersionChar) && All(parts[i][4..], VersionChar);
      }
    }
    AllJoin(parts, '.', VersionChar);
    JoinSplit(s, '.');
  }

  lemma VersionChars(version: string)
    requires FinalVersion(version)
    ensures All(version, VersionChar)
  {
    var bang := IndexOf(version, '!');
    if bang < |version| {
      ReleaseChars(version[bang + 1..]);
      assert version == version[..bang] + ['!'] + version[bang + 1..];
    } else {
      ReleaseChars(version);
    }
  }

  // --- tokens -------------------------------------------------------------------------------

  lemma {:induction false} TokenGrows(t: string, rest: string, token: string)
    requires forall i :: 0 <= i < |t| ==> !IsSpace(t[i])
    ensures TokensFrom(t + rest, token) == TokensFrom(rest, token + t)
    decreases |t|
  {
    if t == "" {
      assert t + rest == rest && token + t == token;
    } else {
      assert (t + rest)[0] == t[0] && (t + rest)[1..] == t[1..] + rest;
      TokenGrows(t[1..], rest, token + [t[0]]);
      assert token + [t[0]] + t[1..] == token + t;
    }
  }

  predicate Word(t: string) { t != "" && forall i :: 0 <= i < |t| ==> !IsSpace(t[i]) }

  // Outside its words a line has only spaces.
  lemma {:induction false} TokenChars(s: string, token: string, p: char -> bool)
    requires forall i :: 0 <= i < |TokensFrom(s, token)| ==> All(TokensFrom(s, token)[i], p)
    ensures All(token, p) && forall i :: 0 <= i < |s| ==> IsSpace(s[i]) || p(s[i])
    decreases |s|
  {
    var tokens := TokensFrom(s, token);
    if s == "" {
      if token != "" { assert tokens[0] == token; }
    } else if IsSpace(s[0]) {
      var rest := TokensFrom(s[1..], "");
      forall i | 0 <= i < |rest| ensures All(rest[i], p) {
        assert rest[i] == tokens[|tokens| - |rest| + i];
      }
      if token != "" { assert tokens[0] == token; }
      TokenChars(s[1..], "", p);
    } else {
      TokenChars(s[1..], token + [s[0]], p);
      assert (token + [s[0]])[|token|] == s[0];
      assert forall i :: 0 <= i < |token| ==> token[i] == (token + [s[0]])[i];
    }
  }

  lemma {:induction false} TokenPrefix(s: string, token: string)
    requires token != ""
    ensures |TokensFrom(s, token)| > 0 && token <= TokensFrom(s, token)[0]
    decreases |s|
  {
    if s != "" && !IsSpace(s[0]) { TokenPrefix(s[1..], token + [s[0]]); }
  }

  // A line that begins with no space begins with its first word.
  lemma FirstChar(s: string)
    requires s != "" && !IsSpace(s[0])
    ensures |Tokens(s)| > 0 && Tokens(s)[0] != "" && Tokens(s)[0][0] == s[0]
  {
    TokenPrefix(s[1..], "" + [s[0]]);
  }

  lemma TokenOfWord(w: string)
    requires Word(w)
    ensures Tokens(w) == [w]
  {
    TokenGrows(w, "", "");
    assert w + "" == w && "" + w == w;
  }

  // --- one line -----------------------------------------------------------------------------

  // What every parsed package is.
  ghost predicate Printable(p: Package) { GoodPackage(p) && NameForm(p.name) && FinalVersion(p.version) }

  // What the words of a package need, its name normalized or not.
  ghost predicate Spelled(p: Package) {
    && NameForm(p.name) && FinalVersion(p.version) && p.requirement == p.name + "==" + p.version
    && forall i :: 0 <= i < |p.hashes| ==> Sha256Form(p.hashes[i])
  }

  lemma {:induction false} SortedStays(names: seq<string>)
    requires Sorted(names)
    ensures Sort(names) == names
  {
    if |names| > 0 {
      SortedStays(names[1..]);
      assert names == [names[0]] + names[1..];
    }
  }

  lemma HashTokenForm(hash: string)
    requires Sha256Form(hash)
    ensures HashForm("--hash=sha256:" + hash) && ("--hash=sha256:" + hash)[14..] == hash
  {
    var token := "--hash=sha256:" + hash;
    assert token[..14] == "--hash=sha256:" && token[14..] == hash;
  }

  lemma {:induction false} HashTokensParse(hashes: seq<string>)
    requires Distinct(hashes) && forall i :: 0 <= i < |hashes| ==> Sha256Form(hashes[i])
    ensures HashesFrom(HashTokens(hashes)) == Some(hashes)
  {
    if |hashes| > 0 {
      var n := |hashes| - 1;
      HashTokensParse(hashes[..n]);
      HashTokenForm(hashes[n]);
      assert HashTokens(hashes)[..n] == HashTokens(hashes[..n]);
      assert hashes == hashes[..n] + [hashes[n]];
    }
  }

  lemma RequirementForm(p: Package)
    requires Spelled(p)
    ensures All(p.requirement, Plain) && IndexOf(p.requirement, '=') == |p.name|
    ensures p.requirement[..|p.name|] == p.name && p.requirement[|p.name| + 2..] == p.version
    ensures StartsWith(p.requirement[|p.name|..], "==") && |p.requirement| > |p.name| + 2
    ensures p.requirement[0] == p.name[0]
  {
    VersionChars(p.version);
    assert p.requirement[..|p.name|] == p.name;
    assert p.requirement[|p.name|] == '=' && p.requirement[|p.name|..][..2] == "==";
  }

  lemma PlainIsWord(t: string)
    requires t != "" && All(t, Plain)
    ensures Word(t) && All(t, Spaced)
  {
  }

  lemma HashTokenIsPlain(hash: string)
    requires Sha256Form(hash)
    ensures All("--hash=sha256:" + hash, Plain)
  {
    assert All(hash, Plain);
    AllAppend("--hash=sha256:", hash, Plain);
  }

  lemma PackageWordIsPlain(p: Package, i: nat)
    requires Spelled(p) && i < |PackageWords(p)|
    ensures PackageWords(p)[i] != "" && All(PackageWords(p)[i], Plain)
  {
    if i == 0 {
      RequirementForm(p);
    } else {
      HashTokenIsPlain(p.hashes[i - 1]);
    }
  }

  // A line that says a package has only plain characters and spaces.
  lemma SayingLineChars(line: string, p: Package)
    requires Spelled(p) && Tokens(line) == PackageWords(p)
    ensures All(line, Spaced)
  {
    forall i | 0 <= i < |PackageWords(p)| ensures All(PackageWords(p)[i], Plain) {
      PackageWordIsPlain(p, i);
    }
    TokenChars(line, "", Plain);
  }

  lemma PlainContainsNot(line: string, needle: string, k: nat)
    requires All(line, Spaced) && k < |needle| && !Spaced(needle[k])
    ensures !Contains(line, needle)
  {
    forall i | 0 <= i <= |line| ensures !StartsWith(line[i..], needle) {
      if |needle| <= |line| - i {
        assert line[i..][..|needle|][k] == line[i + k];
      }
    }
  }

  lemma PrefixChar(s: string, prefix: string, k: nat)
    requires k < |prefix|
    ensures StartsWith(s, prefix) ==> k < |s| && s[k] == prefix[k]
  {
    if StartsWith(s, prefix) { assert s[k] == s[..|prefix|][k]; }
  }

  // A string that begins with a letter or digit begins with none of the refused marks.
  lemma NoMark(s: string)
    requires s != "" && IsAlnum(s[0])
    ensures !StartsWith(s, "-e ") && !StartsWith(s, "--editable") && !StartsWith(s, "-") && !StartsWith(s, "#")
  {
    PrefixChar(s, "-e ", 0);
    PrefixChar(s, "--editable", 0);
    PrefixChar(s, "-", 0);
    PrefixChar(s, "#", 0);
  }

  // The line passes every check before the hashes but the one for "http".
  lemma LinePasses(p: Package, line: string)
    requires Spelled(p) && Tokens(line) == PackageWords(p)
    ensures !Contains(line, ";") && !Contains(line, "://") && !Contains(p.requirement, "@")
    ensures !StartsWith(line, "-e ") && !StartsWith(line, "--editable") && !StartsWith(p.requirement, "-")
    ensures !StartsWith(p.requirement, "file:") && !StartsWith(line, "#")
  {
    LineMarks(p, line);
    NoColon(p);
    SayingLineChars(line, p);
    PlainContainsNot(line, ";", 0);
    PlainContainsNot(line, "://", 1);
    RequirementHasNoAt(p);
  }

  lemma RequirementHasNoAt(p: Package)
    requires Spelled(p)
    ensures !Contains(p.requirement, "@")
  {
    RequirementForm(p);
    PlainIsWord(p.requirement);
    PlainContainsNot(p.requirement, "@", 0);
  }

  lemma LineMarks(p: Package, line: string)
    requires Spelled(p) && Tokens(line) == PackageWords(p)
    ensures !StartsWith(line, "-e ") && !StartsWith(line, "--editable") && !StartsWith(line, "#")
    ensures !StartsWith(p.requirement, "-")
  {
    RequirementForm(p);
    NoMark(p.requirement);
    if line != "" && !IsSpace(line[0]) {
      FirstChar(line);
      NoMark(line);
    } else {
      PrefixChar(line, "-e ", 0);
      PrefixChar(line, "--editable", 0);
      PrefixChar(line, "#", 0);
    }
  }

  lemma NoColon(p: Package)
    requires Spelled(p)
    ensures !StartsWith(p.requirement, "file:")
  {
    VersionChars(p.version);
    assert forall i :: 0 <= i < |p.requirement| ==> p.requirement[i] != ':';
    PrefixChar(p.requirement, "file:", 4);
  }

  /**
   * One line round trip: a line with exactly the words of a parsed package, however they are
   * spaced, parses back to it exactly when the pin does not begin with "http", which the code
   * takes for a direct URL.
   */
  lemma LineRoundTrip(p: Package, line: string)
    requires Printable(p) && Tokens(line) == PackageWords(p)
    ensures ParseRequirementLine(line) == Ok(p) <==> !StartsWith(p.requirement, "http")
    ensures StartsWith(p.requirement, "http") ==> ParseRequirementLine(line).Refused?
  {
    LinePasses(p, line);
    RequirementForm(p);
    HashTokensParse(p.hashes);
    SortedStays(p.hashes);
    assert PackageWords(p)[1..] == HashTokens(p.hashes);
  }

  // Every parsed package can be printed.
  lemma ParsedIsPrintable(line: string)
    requires ParseRequirementLine(line).Ok?
    ensures Printable(ParseRequirementLine(line).value)
  {
    LineGivesGoodPackage(line);
    var token := Tokens(line)[0];
    NormalizedIsNameForm(token[..IndexOf(token, '=')]);
  }

  lemma NormalizedIsNameForm(s: string)
    requires NameForm(s)
    ensures NameForm(NormalizeName(s))
  {
    var ok := (c: char) => IsAlnum(c) || IsSeparator(c);
    CollapseForm(s);
    CollapseAll(s, ok);
    assert All(Lower(Collapse(s)), ok);
    assert Collapse(s)[0] == s[0];
  }

  // --- the whole text -----------------------------------------------------------------------

  function AllWords(packages: seq<Package>): seq<seq<string>> {
    seq(|packages|, i requires 0 <= i < |packages| => PackageWords(packages[i]))
  }

  ghost predicate AllPrintable(packages: seq<Package>) {
    && GoodPackages(packages)
    && forall i :: 0 <= i < |packages| ==> Printable(packages[i]) && !StartsWith(packages[i].requirement, "http")
  }

  // The line parses to the package and is not a comment.
  ghost predicate Gives(line: string, p: Package) { ParseRequirementLine(line) == Ok(p) && !StartsWith(line, "#") }

  // The k-th line adds the k-th package.
  ghost predicate Adds(lines: seq<string>, packages: seq<Package>, k: nat) {
    k < |lines| && k < |packages| && NextPackage(packages[..k], lines[k]) == Ok(packages[..k + 1])
  }

  lemma LineAdds(packages: seq<Package>, k: nat, line: string)
    requires k < |packages| && Gives(line, packages[k]) && DistinctBy(packages, NameOf)
    ensures NextPackage(packages[..k], line) == Ok(packages[..k + 1])
  {
    NameIsNew(packages, k);
    var before, p := packages[..k], packages[k];
    PrefixExtends(packages, k);
    NextParsed(before, line, p);
  }

  lemma PrefixExtends(packages: seq<Package>, k: nat)
    requires k < |packages|
    ensures packages[..k + 1] == packages[..k] + [packages[k]]
  {
  }

  lemma AddsOne(lines: seq<string>, packages: seq<Package>, k: nat)
    requires Adds(lines, packages, k) && PackagesFrom(lines[..k]) == Ok(packages[..k])
    ensures PackagesFrom(lines[..k + 1]) == Ok(packages[..k + 1])
  {
    PackagesStep(lines, k, packages[..k]);
  }

  lemma {:induction false} PackagesPrefix(lines: seq<string>, packages: seq<Package>, n: nat)
    requires n <= |lines| == |packages| && forall k :: 0 <= k < |lines| ==> Adds(lines, packages, k)
    ensures PackagesFrom(lines[..n]) == Ok(packages[..n])
  {
    if n > 0 {
      PackagesPrefix(lines, packages, n - 1);
      AddsOne(lines, packages, n - 1);
    }
  }

  lemma NextParsed(packages: seq<Package>, line: string, p: Package)
    requires Gives(line, p) && !HasName(packages, p.name)
    ensures NextPackage(packages, line) == Ok(packages + [p])
  {
  }

  lemma NameIsNew(packages: seq<Package>, k: nat)
    requires k < |packages| && DistinctBy(packages, NameOf)
    ensures !HasName(packages[..k], packages[k].name)
  {
    forall i | 0 <= i < k ensures packages[..k][i].name != packages[k].name {
      assert NameOf(packages[i]) != NameOf(packages[k]);
    }
  }

  lemma {:induction false} SortedByStays(packages: seq<Package>)
    requires SortedBy(packages, NameOf)
    ensures SortBy(packages, NameOf) == packages
  {
    if |packages| > 0 {
      SortedByStays(packages[1..]);
      assert packages == [packages[0]] + packages[1..];
    }
  }

  // Line by line, these lines say these packages.
  ghost predicate Say(lines: seq<string>, packages: seq<Package>) {
    |lines| == |packages| && forall i :: 0 <= i < |lines| ==> Tokens(lines[i]) == PackageWords(packages[i])
  }

  lemma SayingLinesAdd(lines: seq<string>, packages: seq<Package>)
    requires AllPrintable(packages) && Say(lines, packages)
    ensures PackagesFrom(lines) == Ok(packages)
  {
    forall i | 0 <= i < |lines| ensures Adds(lines, packages, i) {
      LineRoundTrip(packages[i], lines[i]);
      LineMarks(packages[i], lines[i]);
      LineAdds(packages, i, lines[i]);
    }
    PackagesPrefix(lines, packages, |lines|);
    assert lines[..|lines|] == lines && packages[..|packages|] == packages;
  }

  // --- lines without a word -----------------------------------------------------------------

  // Every line has a word.
  ghost predicate Wordy(lines: seq<string>) {
    |lines| == 0 || (Wordy(lines[..|lines| - 1]) && Tokens(lines[|lines| - 1]) != [])
  }

  lemma WordyAppend(lines: seq<string>, line: string)
    ensures Wordy(lines + [line]) <==> Wordy(lines) && Tokens(line) != []
  {
    assert (lines + [line])[..|lines|] == lines;
  }

  lemma WordyUnlessEmpty(lines: seq<string>, line: string)
    ensures Wordy(lines + if line == "" then [] else [line]) <==> Wordy(lines) && (line == "" || Tokens(line) != [])
  {
    WordyAppend(lines, line);
    assert lines + [] == lines;
  }

  lemma {:induction false} LineWordsOf(lines: seq<string>)
    requires Wordy(lines)
    ensures |LineWords(lines)| == |lines| && forall i :: 0 <= i < |lines| ==> LineWords(lines)[i] == Tokens(lines[i])
  {
    if |lines| > 0 { LineWordsOf(lines[..|lines| - 1]); }
  }

  lemma TokensStep(open: string, piece: string)
    requires OpenBuffer(open)
    ensures Tokens(open + Strip(piece)) == Tokens(open) + Tokens(piece)
    ensures Tokens(open + Strip(piece) + " ") == Tokens(open) + Tokens(piece)
  {
    TokensOfStrip(piece);
    BufferTokens(open, Strip(piece));
    TokensBeforeSpace(open + Strip(piece), ' ', "");
  }

  lemma OpenTextIs(raws: seq<string>)
    ensures OpenBuffer(OpenText(raws)) && (OpenText(raws) == "" <==> raws == [])
    ensures raws != [] ==> OpenText(raws) == JoinedPieces(raws) + " "
  {
  }

  lemma WordsStep(raws: seq<string>, raw: string)
    ensures Words(raws + [raw]) == Words(raws) + Tokens(Piece(raw))
  {
    assert (raws + [raw])[..|raws|] == raws;
  }

  // Joined pieces have the words of the raw lines.
  lemma {:induction false} JoinedTokens(raws: seq<string>)
    ensures Tokens(OpenText(raws)) == Words(raws) && (|raws| > 0 ==> Tokens(JoinedPieces(raws)) == Words(raws))
  {
    if |raws| > 0 {
      var before, raw := raws[..|raws| - 1], raws[|raws| - 1];
      JoinedTokens(before);
      OpenTextIs(before);
      assert raws == before + [raw];
      OnePieceMore(before, raw);
      WordsStep(before, raw);
      TokensStep(OpenText(before), Piece(raw));
      OpenTextIs(raws);
    }
  }

  // A group without words leaves a line exactly when it has more than one raw line.
  lemma WordlessGroup(before: seq<string>, raw: string)
    requires Words(before + [raw]) == []
    ensures JoinedPieces(before + [raw]) == "" <==> before == []
  {
    OnePieceMore(before, raw);
    WordsStep(before, raw);
    WordlessPiece(Piece(raw));
    OpenTextIs(before);
  }

  lemma WordlessPiece(piece: string)
    requires Tokens(piece) == []
    ensures Strip(piece) == ""
  {
    NoTokensExactlyBlank(piece, "");
    StripOfBlank(piece);
  }

  // A group that leaves a blank logical line: lone marks closed by a blank line.
  ghost predicate BlankGroup(g: seq<string>) { Words(g) == [] && |g| > 1 }

  ghost predicate NoBlankGroup(groups: seq<seq<string>>) {
    forall i :: 0 <= i < |groups| ==> !BlankGroup(groups[i])
  }

  lemma GroupLineSpeaks(g: seq<string>)
    requires |g| > 0
    ensures JoinedPieces(g) == "" || Tokens(JoinedPieces(g)) != [] <==> !BlankGroup(g)
  {
    JoinedTokens(g);
    assert g == g[..|g| - 1] + [g[|g| - 1]] && Tokens("") == [];
    if Words(g) == [] { WordlessGroup(g[..|g| - 1], g[|g| - 1]); }
  }

  lemma GroupLinesAppend(groups: seq<seq<string>>, g: seq<string>)
    ensures GroupLines(groups + [g]) == GroupLines(groups) + if JoinedPieces(g) == "" then [] else [JoinedPieces(g)]
  {
    assert (groups + [g])[..|groups|] == groups;
  }

  lemma NoBlankGroupAppend(groups: seq<seq<string>>, g: seq<string>)
    ensures NoBlankGroup(groups + [g]) <==> NoBlankGroup(groups) && !BlankGroup(g)
  {
    assert (groups + [g])[|groups|] == g;
    assert forall i :: 0 <= i < |groups| ==> (groups + [g])[i] == groups[i];
  }

  lemma GroupLinesSpeakStep(groups: seq<seq<string>>, g: seq<string>)
    requires |g| > 0 && (Wordy(GroupLines(groups)) <==> NoBlankGroup(groups))
    ensures Wordy(GroupLines(groups + [g])) <==> NoBlankGroup(groups + [g])
  {
    GroupLinesAppend(groups, g);
    NoBlankGroupAppend(groups, g);
    GroupLineSpeaks(g);
    WordyUnlessEmpty(GroupLines(groups), JoinedPieces(g));
  }

  lemma {:induction false} GroupLinesSpeak(groups: seq<seq<string>>, n: nat)
    requires n <= |groups| && forall i :: 0 <= i < |groups| ==> |groups[i]| > 0
    ensures Wordy(GroupLines(groups[..n])) <==> NoBlankGroup(groups[..n])
  {
    if n > 0 {
      GroupLinesSpeak(groups, n - 1);
      assert groups[..n] == groups[..n - 1] + [groups[n - 1]];
      GroupLinesSpeakStep(groups[..n - 1], groups[n - 1]);
    }
  }

  // The logical lines of a text all have words exactly when it has no blank group.
  lemma LogicalLinesHaveWords(text: string, groups: seq<seq<string>>, rest: seq<string>)
    requires Grouped(SplitLines(text), groups, rest)
    ensures Wordy(LogicalOf(text)) <==> NoBlankGroup(groups)
  {
    LogicalLinesAre(text, groups, rest);
    GroupsAreNotEmpty(groups);
    GroupLinesSpeak(groups, |groups|);
    assert groups[..|groups|] == groups;
    var lines, last := GroupLines(groups), Strip(OpenText(rest));
    StripOfBlank(OpenText(rest));
    NoTokensExactlyBlank(last, "");
    WordyUnlessEmpty(lines, last);
  }

  lemma GroupsAreNotEmpty(groups: seq<seq<string>>)
    requires forall i :: 0 <= i < |groups| ==> Group(groups[i])
    ensures forall i :: 0 <= i < |groups| ==> |groups[i]| > 0
  {
  }

  lemma ParsedLineHasWords(packages: seq<Package>, line: string)
    requires NextPackage(packages, line).Ok?
    ensures Tokens(line) != []
  {
    if StartsWith(line, "#") {
      PrefixChar(line, "#", 0);
      FirstChar(line);
    }
  }

  lemma {:induction false} ParsedLinesAreWordy(lines: seq<string>)
    requires PackagesFrom(lines).Ok?
    ensures Wordy(lines)
  {
    if |lines| > 0 {
      var n := |lines| - 1;
      ParsedLinesAreWordy(lines[..n]);
      ParsedLineHasWords(PackagesFrom(lines[..n]).value, lines[n]);
    }
  }

  // Lines with these words, in order, parse to the packages exactly when none is without a word.
  lemma WordyLinesAdd(lines: seq<string>, packages: seq<Package>)
    requires AllPrintable(packages) && LineWords(lines) == AllWords(packages)
    ensures Wordy(lines) ==> PackagesFrom(lines) == Ok(packages)
    ensures PackagesFrom(lines).Ok? ==> Wordy(lines)
  {
    if Wordy(lines) {
      LineWordsOf(lines);
      SayingLinesAdd(lines, packages);
    }
    if PackagesFrom(lines).Ok? { ParsedLinesAreWordy(lines); }
  }

  /**
   * Text round trip, in any layout: however the words of a list of printable packages with
   * distinct names, none pinned as "http...", are spread over continued lines, with any spacing,
   * blank lines between them and lone marks among them, the text resolves to exactly that list,
   * sorted, if and only if no run of lone marks is closed by a blank line.
   */
  lemma LockTextRoundTrip(text: string, groups: seq<seq<string>>, rest: seq<string>, packages: seq<Package>)
    requires packages != [] && AllPrintable(packages)
    requires Grouped(SplitLines(text), groups, rest) && GroupWords(groups + [rest]) == AllWords(packages)
    ensures ResolutionOf(text) == Ok(SortBy(packages, NameOf)) <==> NoBlankGroup(groups)
  {
    LogicalLinesHaveWords(text, groups, rest);
    LogicalLinesSpeak(text, groups, rest);
    WordyLinesAdd(LogicalOf(text), packages);
  }

  // --- the resolver's layout ----------------------------------------------------------------

  // Each word on its own line, indented after the first, with a mark on all but the last.
  function Layout(words: seq<string>): seq<string> {
    seq(|words|, i requires 0 <= i < |words| =>
      (if i == 0 then "" else "    ") + words[i] + if i < |words| - 1 then " \\" else "")
  }

  function Layouts(packages: seq<Package>): seq<seq<string>> {
    seq(|packages|, i requires 0 <= i < |packages| => Layout(PackageWords(packages[i])))
  }

  function RawText(raws: seq<string>): string {
    if |raws| == 0 then "" else raws[0] + "\n" + RawText(raws[1..])
  }

  function PrintLock(packages: seq<Package>): string { RawText(Flatten(Layouts(packages))) }

  lemma {:induction false} StripIndent(indent: string, t: string)
    requires Blank(indent) && t != "" && !IsSpace(t[0])
    ensures StripLeft(indent + t) == t
    decreases |indent|
  {
    if indent == "" {
      assert indent + t == t;
    } else {
      assert (indent + t)[0] == indent[0] && (indent + t)[1..] == indent[1..] + t;
      StripIndent(indent[1..], t);
    }
  }

  lemma StripMarked(indent: string, word: string, mark: string)
    requires Blank(indent) && Word(word) && mark == " \\"
    ensures Strip(indent + word + mark) == word + mark
    ensures Continues(indent + word + mark) && Strip(Piece(indent + word + mark)) == word
  {
    var t := word + mark;
    assert indent + word + mark == indent + t;
    StripIndent(indent, t);
    assert StripRight(t) == t && t[|t| - 1] == '\\' && t[|t| - 1..] == "\\";
    var piece := DropLast(t);
    assert piece == word + " ";
    assert StripLeft(piece) == piece;
    assert piece[..|piece| - 1] == word;
    assert StripRight(word) == word;
  }

  lemma StripLast(indent: string, word: string)
    requires Blank(indent) && Word(word) && word[|word| - 1] != '\\'
    ensures !Continues(indent + word) && Strip(Piece(indent + word)) == word
  {
    StripIndent(indent, word);
    assert StripRight(word) == word;
    assert word[|word| - 1..][0] == word[|word| - 1];
  }

  // The layout is one group of raw lines whose pieces are the words.
  lemma LayoutSpells(words: seq<string>)
    requires |words| > 0 && forall i :: 0 <= i < |words| ==> LayoutWord(words[i])
    ensures Group(Layout(words)) && Words(Layout(words)) == words
  {
    var raws := Layout(words);
    forall i | 0 <= i < |words|
      ensures Tokens(Piece(raws[i])) == [words[i]] && (Continues(raws[i]) <==> i < |words| - 1)
    {
      LayoutLine(words, i);
      TokensOfStrip(Piece(raws[i]));
      TokenOfWord(words[i]);
    }
    OneWordEach(raws, words);
  }

  lemma {:induction false} OneWordEach(raws: seq<string>, words: seq<string>)
    requires |raws| == |words| && forall i :: 0 <= i < |raws| ==> Tokens(Piece(raws[i])) == [words[i]]
    ensures Words(raws) == words
  {
    if |raws| > 0 {
      var n := |raws| - 1;
      OneWordEach(raws[..n], words[..n]);
      assert words == words[..n] + [words[n]];
    }
  }

  lemma LayoutLine(words: seq<string>, i: nat)
    requires i < |words| && Word(words[i]) && words[i][|words[i]| - 1] != '\\'
    ensures Strip(Piece(Layout(words)[i])) == words[i] && (Continues(Layout(words)[i]) <==> i < |words| - 1)
  {
    var indent := if i == 0 then "" else "    ";
    if i < |words| - 1 {
      StripMarked(indent, words[i], " \\");
    } else {
      StripLast(indent, words[i]);
      assert indent + words[i] + "" == indent + words[i];
    }
  }

  // A word the layout can carry: it is not taken for a mark.
  ghost predicate LayoutWord(w: string) { Word(w) && All(w, Plain) && w[|w| - 1] != '\\' }

  lemma PlainIsLayoutWord(w: string)
    requires w != "" && All(w, Plain)
    ensures LayoutWord(w)
  {
    PlainIsWord(w);
    assert Plain(w[|w| - 1]);
  }

  lemma PackageWordsEnd(p: Package)
    requires Printable(p)
    ensures forall i :: 0 <= i < |PackageWords(p)| ==> LayoutWord(PackageWords(p)[i])
  {
    forall i | 0 <= i < |PackageWords(p)| ensures LayoutWord(PackageWords(p)[i]) {
      PackageWordIsPlain(p, i);
      PlainIsLayoutWord(PackageWords(p)[i]);
    }
  }

  // No raw line of the layout holds a line break.
  predicate RawChar(c: char) { Plain(c) || c == ' ' || c == '\\' }

  lemma LayoutChars(p: Package, i: nat)
    requires Printable(p) && i < |PackageWords(p)|
    ensures All(Layout(PackageWords(p))[i], RawChar)
  {
    PackageWordIsPlain(p, i);
    var words := PackageWords(p);
    var indent, mark := if i == 0 then "" else "    ", if i < |words| - 1 then " \\" else "";
    assert All(words[i], RawChar);
    AllAppend(indent, words[i], RawChar);
    AllAppend(indent + words[i], mark, RawChar);
  }

  lemma {:induction false} FlattenAll(groups: seq<seq<string>>, p: char -> bool)
    requires forall i, k :: 0 <= i < |groups| && 0 <= k < |groups[i]| ==> All(groups[i][k], p)
    ensures forall k :: 0 <= k < |Flatten(groups)| ==> All(Flatten(groups)[k], p)
  {
    if |groups| > 0 { FlattenAll(groups[..|groups| - 1], p); }
  }

  lemma {:induction false} LineGrows(t: string, rest: string, line: string)
    requires forall i :: 0 <= i < |t| ==> !IsBreak(t[i])
    ensures LinesFrom(t + rest, line) == LinesFrom(rest, line + t)
    decreases |t|
  {
    if t == "" {
      assert t + rest == rest && line + t == line;
    } else {
      assert (t + rest)[0] == t[0] && (t + rest)[1..] == t[1..] + rest;
      LineGrows(t[1..], rest, line + [t[0]]);
      assert line + [t[0]] + t[1..] == line + t;
    }
  }

  lemma FirstLine(line: string, rest: string)
    requires All(line, RawChar)
    ensures SplitLines(line + "\n" + rest) == [line] + SplitLines(rest)
  {
    LineGrows(line, "\n" + rest, "");
    assert line + "\n" + rest == line + ("\n" + rest) && "" + line == line;
    assert ("\n" + rest)[0] == '\n' && ("\n" + rest)[1..] == rest;
  }

  lemma {:induction false} SplitRawText(raws: seq<string>)
    requires forall i :: 0 <= i < |raws| ==> All(raws[i], RawChar)
    ensures SplitLines(RawText(raws)) == raws
  {
    if |raws| > 0 {
      SplitRawText(raws[1..]);
      FirstLine(raws[0], RawText(raws[1..]));
      assert raws == [raws[0]] + raws[1..];
    }
  }

  lemma GroupWordsAppend(groups: seq<seq<string>>, g: seq<string>)
    ensures GroupWords(groups + [g]) == GroupWords(groups) + if Words(g) == [] then [] else [Words(g)]
  {
    assert (groups + [g])[..|groups|] == groups;
  }

  lemma {:induction false} GroupWordsOf(groups: seq<seq<string>>, words: seq<seq<string>>)
    requires |groups| == |words| && forall i :: 0 <= i < |groups| ==> Words(groups[i]) == words[i] != []
    ensures GroupWords(groups) == words
  {
    if |groups| > 0 {
      var n := |groups| - 1;
      var before, g := groups[..n], groups[n];
      GroupWordsOf(before, words[..n]);
      assert groups == before + [g] && words == words[..n] + [words[n]];
      GroupWordsAppend(before, g);
    }
  }

  lemma LayoutsSplit(packages: seq<Package>)
    requires AllPrintable(packages)
    ensures SplitLines(PrintLock(packages)) == Flatten(Layouts(packages))
  {
    var groups := Layouts(packages);
    forall i, k | 0 <= i < |groups| && 0 <= k < |groups[i]| ensures All(groups[i][k], RawChar) {
      LayoutChars(packages[i], k);
    }
    FlattenAll(groups, RawChar);
    SplitRawText(Flatten(groups));
  }

  // Each package is laid out as one group, with its words.
  lemma LayoutsSay(packages: seq<Package>)
    requires AllPrintable(packages)
    ensures GroupWords(Layouts(packages)) == AllWords(packages) && NoBlankGroup(Layouts(packages))
    ensures forall i :: 0 <= i < |packages| ==> Group(Layouts(packages)[i])
  {
    var groups := Layouts(packages);
    forall i | 0 <= i < |packages| ensures Group(groups[i]) && Words(groups[i]) == AllWords(packages)[i] != [] {
      PackageWordsEnd(packages[i]);
      LayoutSpells(PackageWords(packages[i]));
    }
    GroupWordsOf(groups, AllWords(packages));
  }

  // The text a resolver prints, with every hash on a continued line, resolves to its packages.
  lemma PrintedLockRoundTrip(packages: seq<Package>)
    requires packages != [] && AllPrintable(packages)
    ensures ResolutionOf(PrintLock(packages)) == Ok(SortBy(packages, NameOf))
    ensures SortedBy(packages, NameOf) ==> ResolutionOf(PrintLock(packages)) == Ok(packages)
  {
    var groups := Layouts(packages);
    LayoutsSplit(packages);
    LayoutsSay(packages);
    assert Flatten(groups) + [] == Flatten(groups);
    GroupWordsAppend(groups, []);
    assert GroupWords(groups) + [] == GroupWords(groups);
    LockTextRoundTrip(PrintLock(packages), groups, [], packages);
    if SortedBy(packages, NameOf) { SortedByStays(packages); }
  }

  // --- what an accepted line says -----------------------------------------------------------

  lemma {:induction false} HashesComeFromTokens(tokens: seq<string>)
    requires HashesFrom(tokens).Some?
    ensures var h := HashesFrom(tokens).value; |h| == |tokens| && tokens == HashTokens(h)
  {
    if |tokens| > 0 {
      var n := |tokens| - 1;
      HashesComeFromTokens(tokens[..n]);
      var token := tokens[n];
      assert token == token[..14] + token[14..];
      assert tokens == tokens[..n] + [token];
    }
  }

  /**
   * Whatever line is accepted, the package says what the line says: no environment marker and no
   * URL is in it, its first word is the pin under the name before normalization, and its other
   * words are the hashes, in some order.
   */
  lemma AcceptedLineSays(line: string)
    requires ParseRequirementLine(line).Ok?
    ensures var p, words := ParseRequirementLine(line).value, Tokens(line);
            && !Contains(line, ";") && !Contains(line, "://") && |words| > 1
            && (exists raw :: NameForm(raw) && NormalizeName(raw) == p.name && words[0] == raw + "==" + p.version)
            && FinalVersion(p.version)
            && (exists digests :: words[1..] == HashTokens(digests) && multiset(digests) == multiset(p.hashes))
  {
    var p, words := ParseRequirementLine(line).value, Tokens(line);
    var eq := IndexOf(words[0], '=');
    PinComesApart(words[0], eq);
    var digests := HashesFrom(words[1..]).value;
    HashesComeFromTokens(words[1..]);
    SortBySorts(digests, name => name);
  }

  lemma PinComesApart(pin: string, eq: nat)
    requires eq <= |pin| && StartsWith(pin[eq..], "==")
    ensures pin == pin[..eq] + "==" + pin[eq + 2..]
  {
    assert pin[eq..][..2] == pin[eq..eq + 2] == "==";
    assert pin == pin[..eq] + pin[eq..eq + 2] + pin[eq + 2..];
  }
}
