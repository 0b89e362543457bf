/**
 * What the folding of continuation lines means: which raw lines make up a logical line, and what
 * words it holds.
 */
module LineFolding {
  import opened Wrappers
  import opened Text
  import opened LockParser
  import opened LockRecords

  // The raw line ends in a continuation mark.
  predicate Continues(raw: string) { EndsWith(Strip(raw), "\\") }

  // The raw line without its mark.
  function Piece(raw: string): string { if Continues(raw) then DropLast(Strip(raw)) else raw }

  // The words of the raw lines, one after the other.
  function Words(raws: seq<string>): seq<string> {
    if |raws| == 0 then [] else Words(raws[..|raws| - 1]) + Tokens(Piece(raws[|raws| - 1]))
  }

  // Raw lines that belong together: all but the last are continued.
  ghost predicate Group(raws: seq<string>) {
    && |raws| > 0 && !Continues(raws[|raws| - 1])
    && forall i :: 0 <= i < |raws| - 1 ==> Continues(raws[i])
  }

  function Flatten(groups: seq<seq<string>>): seq<string> {
    if |groups| == 0 then [] else Flatten(groups[..|groups| - 1]) + groups[|groups| - 1]
  }

  // The raw lines fall into these groups, and a last one that was still being continued.
  ghost predicate Grouped(raws: seq<string>, groups: seq<seq<string>>, rest: seq<string>) {
    && Flatten(groups) + rest == raws
    && (forall i :: 0 <= i < |groups| ==> Group(groups[i]))
    && (forall i :: 0 <= i < |rest| ==> Continues(rest[i]))
  }

  // The words of the groups, without the groups that have none.
  function GroupWords(groups: seq<seq<string>>): seq<seq<string>> {
    if |groups| == 0 then []
    else
      var n := |groups| - 1;
      GroupWords(groups[..n]) + if Words(groups[n]) == [] then [] else [Words(groups[n])]
  }

  // The words of the lines, without the lines that have none.
  function LineWords(lines: seq<string>): seq<seq<string>> {
    if |lines| == 0 then []
    else
      var n := |lines| - 1;
      LineWords(lines[..n]) + if Tokens(lines[n]) == [] then [] else [Tokens(lines[n])]
  }

  // --- words and spaces ---------------------------------------------------------------------

  lemma {:induction false} TokensAfterSpace(a: string, b: string, token: string)
    requires a != "" && IsSpace(a[|a| - 1])
    ensures TokensFrom(a + b, token) == TokensFrom(a, token) + TokensFrom(b, "")
    decreases |a|
  {
    assert (a + b)[0] == a[0] && (a + b)[1..] == a[1..] + b;
    if |a| == 1 {
      assert a[1..] + b == b && TokensFrom(a[1..], "") == [];
    } else {
      TokensAfterSpace(a[1..], b, if IsSpace(a[0]) then "" else token + [a[0]]);
    }
  }

  lemma {:induction false} TokensBeforeSpace(a: string, c: char, token: string)
    requires IsSpace(c)
    ensures TokensFrom(a + [c], token) == TokensFrom(a, token)
    decreases |a|
  {
    if a == "" {
      assert (a + [c])[1..] == "";
    } else {
      assert (a + [c])[0] == a[0] && (a + [c])[1..] == a[1..] + [c];
      TokensBeforeSpace(a[1..], c, if IsSpace(a[0]) then "" else token + [a[0]]);
    }
  }

  lemma {:induction false} TokensOfStripLeft(s: string)
    ensures Tokens(StripLeft(s)) == Tokens(s)
  {
    if s != "" && IsSpace(s[0]) { TokensOfStripLeft(s[1..]); }
  }

  lemma {:induction false} TokensOfStripRight(s: string)
    ensures Tokens(StripRight(s)) == Tokens(s)
  {
    if s != "" && IsSpace(s[|s| - 1]) {
      TokensOfStripRight(s[..|s| - 1]);
      TokensBeforeSpace(s[..|s| - 1], s[|s| - 1], "");
      assert s == s[..|s| - 1] + [s[|s| - 1]];
    }
  }

  // Stripping loses no word.
  lemma TokensOfStrip(s: string)
    ensures Tokens(Strip(s)) == Tokens(s)
  {
    TokensOfStripLeft(s);
    TokensOfStripRight(StripLeft(s));
  }

  // --- folding keeps the words --------------------------------------------------------------

  ghost predicate OpenBuffer(buffer: string) { buffer != "" ==> IsSpace(buffer[|buffer| - 1]) }

  lemma BufferTokens(buffer: string, more: string)
    requires OpenBuffer(buffer)
    ensures Tokens(buffer + more) == Tokens(buffer) + Tokens(more)
  {
    if buffer == "" {
      assert buffer + more == more && Tokens(buffer) == [];
    } else {
      TokensAfterSpace(buffer, more, "");
    }
  }

  lemma ContinuedTokens(buffer: string, raw: string)
    requires OpenBuffer(buffer) && Continues(raw)
    ensures var f := FoldLine(Folding([], buffer), raw);
            f.lines == [] && OpenBuffer(f.buffer) && Tokens(f.buffer) == Tokens(buffer) + Tokens(Piece(raw))
  {
    var piece := Strip(DropLast(Strip(raw)));
    TokensOfStrip(DropLast(Strip(raw)));
    BufferTokens(buffer, piece);
    TokensBeforeSpace(buffer + piece, ' ', "");
  }

  lemma EndedTokens(buffer: string, raw: string)
    requires OpenBuffer(buffer) && !Continues(raw)
    ensures Tokens(buffer + Strip(raw)) == Tokens(buffer) + Tokens(Piece(raw))
  {
    TokensOfStrip(raw);
    BufferTokens(buffer, Strip(raw));
  }

  // Folding one line looks at the buffer only.
  lemma FoldLineFrame(lines: seq<string>, buffer: string, raw: string)
    ensures var f := FoldLine(Folding([], buffer), raw);
            FoldLine(Folding(lines, buffer), raw) == Folding(lines + f.lines, f.buffer)
  {
  }

  lemma LineWordsAppend(lines: seq<string>, line: string)
    ensures LineWords(lines + [line]) == LineWords(lines) + if Tokens(line) == [] then [] else [Tokens(line)]
  {
    assert (lines + [line])[..|lines|] == lines;
  }

  // What the folding of these raw lines has collected.
  ghost predicate Speaks(f: Folding, groups: seq<seq<string>>, rest: seq<string>) {
    LineWords(f.lines) == GroupWords(groups) && OpenBuffer(f.buffer) && Tokens(f.buffer) == Words(rest)
  }

  lemma SpeaksContinued(f: Folding, groups: seq<seq<string>>, rest: seq<string>, raw: string)
    requires Speaks(f, groups, rest) && Continues(raw)
    ensures Speaks(FoldLine(f, raw), groups, rest + [raw])
  {
    ContinuedTokens(f.buffer, raw);
    FoldLineFrame(f.lines, f.buffer, raw);
    assert f.lines + [] == f.lines;
    assert (rest + [raw])[..|rest|] == rest;
  }

  lemma SpeaksEnded(f: Folding, groups: seq<seq<string>>, rest: seq<string>, raw: string)
    requires Speaks(f, groups, rest) && !Continues(raw)
    ensures Speaks(FoldLine(f, raw), groups + [rest + [raw]], [])
  {
    EndedTokens(f.buffer, raw);
    assert (rest + [raw])[..|rest|] == rest;
    assert (groups + [rest + [raw]])[..|groups|] == groups;
    var line := f.buffer + Strip(raw);
    LineWordsAppend(f.lines, line);
  }

  lemma GroupedOpen(raws: seq<string>, groups: seq<seq<string>>, rest: seq<string>)
    requires Grouped(raws, groups, rest) && |rest| > 0
    ensures |raws| > 0 && raws[|raws| - 1] == rest[|rest| - 1] && Continues(rest[|rest| - 1])
    ensures Grouped(raws[..|raws| - 1], groups, rest[..|rest| - 1])
    ensures rest == rest[..|rest| - 1] + [rest[|rest| - 1]]
  {
    assert raws[..|raws| - 1] == Flatten(groups) + rest[..|rest| - 1];
  }

  lemma GroupedClosed(raws: seq<string>, groups: seq<seq<string>>)
    requires Grouped(raws, groups, []) && |groups| > 0
    ensures var n := |groups| - 1;
            var g := groups[n];
            && |g| > 0 && |raws| > 0 && raws[|raws| - 1] == g[|g| - 1] && !Continues(g[|g| - 1])
            && Grouped(raws[..|raws| - 1], groups[..n], g[..|g| - 1])
            && groups == groups[..n] + [g[..|g| - 1] + [g[|g| - 1]]]
  {
    var n := |groups| - 1;
    var g := groups[n];
    assert Group(g);
    assert Flatten(groups) + [] == Flatten(groups);
    assert raws == Flatten(groups[..n]) + g;
    assert g == g[..|g| - 1] + [g[|g| - 1]] && groups == groups[..n] + [g];
    assert raws[..|raws| - 1] == Flatten(groups[..n]) + g[..|g| - 1];
  }

  lemma FoldLast(raws: seq<string>)
    requires |raws| > 0
    ensures FoldLines(raws) == FoldLine(FoldLines(raws[..|raws| - 1]), raws[|raws| - 1])
  {
  }

  lemma {:induction false} FoldSpeaks(raws: seq<string>, groups: seq<seq<string>>, rest: seq<string>)
    requires Grouped(raws, groups, rest)
    ensures Speaks(FoldLines(raws), groups, rest)
    decreases |raws|
  {
    if |rest| > 0 {
      GroupedOpen(raws, groups, rest);
      FoldSpeaks(raws[..|raws| - 1], groups, rest[..|rest| - 1]);
      FoldLast(raws);
      SpeaksContinued(FoldLines(raws[..|raws| - 1]), groups, rest[..|rest| - 1], raws[|raws| - 1]);
    } else if |groups| > 0 {
      GroupedClosed(raws, groups);
      var n := |groups| - 1;
      var before := groups[n][..|groups[n]| - 1];
      FoldSpeaks(raws[..|raws| - 1], groups[..n], before);
      FoldLast(raws);
      SpeaksEnded(FoldLines(raws[..|raws| - 1]), groups[..n], before, raws[|raws| - 1]);
    } else {
      SpeaksNothing(raws);
    }
  }

  lemma SpeaksNothing(raws: seq<string>)
    requires raws == []
    ensures Speaks(FoldLines(raws), [], [])
  {
  }

  lemma GroupedContinues(raws: seq<string>, groups: seq<seq<string>>, rest: seq<string>, raw: string)
    requires Grouped(raws, groups, rest) && Continues(raw)
    ensures Grouped(raws + [raw], groups, rest + [raw])
  {
    assert Flatten(groups) + (rest + [raw]) == Flatten(groups) + rest + [raw];
  }

  lemma GroupedEnds(raws: seq<string>, groups: seq<seq<string>>, rest: seq<string>, raw: string)
    requires Grouped(raws, groups, rest) && !Continues(raw)
    ensures Grouped(raws + [raw], groups + [rest + [raw]], [])
  {
    var g := rest + [raw];
    assert Group(g);
    assert (groups + [g])[..|groups|] == groups;
    assert Flatten(groups) + g + [] == Flatten(groups) + rest + [raw];
  }

  // Every text falls into groups.
  lemma {:induction false} GroupsExist(raws: seq<string>) returns (groups: seq<seq<string>>, rest: seq<string>)
    ensures Grouped(raws, groups, rest)
  {
    groups, rest := [], [];
    if |raws| > 0 {
      var n := |raws| - 1;
      groups, rest := GroupsExist(raws[..n]);
      assert raws == raws[..n] + [raws[n]];
      if Continues(raws[n]) {
        GroupedContinues(raws[..n], groups, rest, raws[n]);
        rest := rest + [raws[n]];
      } else {
        GroupedEnds(raws[..n], groups, rest, raws[n]);
        groups, rest := groups + [rest + [raws[n]]], [];
      }
    }
  }

  /**
   * For every text, the words of its logical lines are, line by line, the words of the raw lines
   * each was folded from, without the continuation marks; lines and groups without a word aside.
   */
  lemma LogicalLinesSpeak(text: string, groups: seq<seq<string>>, rest: seq<string>)
    requires Grouped(SplitLines(text), groups, rest)
    ensures LineWords(LogicalOf(text)) == GroupWords(groups + [rest])
  {
    var f := FoldLines(SplitLines(text));
    FoldSpeaks(SplitLines(text), groups, rest);
    TokensOfStrip(f.buffer);
    LineWordsAppend(f.lines, Strip(f.buffer));
    assert (groups + [rest])[..|groups|] == groups;
    assert Tokens("") == [];
  }

  // --- the text of a logical line -----------------------------------------------------------

  // What each raw line contributes.
  function Pieces(raws: seq<string>): seq<string> {
    seq(|raws|, i requires 0 <= i < |raws| => Strip(Piece(raws[i])))
  }

  function JoinedPieces(raws: seq<string>): string { Join(Pieces(raws), ' ') }

  // The pieces of each group, joined by single spaces; groups that are empty leave no line.
  function GroupLines(groups: seq<seq<string>>): seq<string> {
    if |groups| == 0 then []
    else
      var n := |groups| - 1;
      GroupLines(groups[..n]) + if JoinedPieces(groups[n]) == "" then [] else [JoinedPieces(groups[n])]
  }

  function OpenText(rest: seq<string>): string { if |rest| == 0 then "" else JoinedPieces(rest) + " " }

  ghost predicate Holds(f: Folding, groups: seq<seq<string>>, rest: seq<string>) {
    f.lines == GroupLines(groups) && f.buffer == OpenText(rest)
  }

  lemma OnePieceMore(rest: seq<string>, raw: string)
    ensures JoinedPieces(rest + [raw]) == OpenText(rest) + Strip(Piece(raw))
  {
    assert Pieces(rest + [raw]) == Pieces(rest) + [Strip(Piece(raw))];
    if |rest| > 0 {
      JoinAppend(Pieces(rest), [Strip(Piece(raw))], ' ');
    } else {
      assert Pieces(rest) + [Strip(Piece(raw))] == [Strip(Piece(raw))];
    }
  }

  lemma HoldsContinued(f: Folding, groups: seq<seq<string>>, rest: seq<string>, raw: string)
    requires Holds(f, groups, rest) && Continues(raw)
    ensures Holds(FoldLine(f, raw), groups, rest + [raw])
  {
    OnePieceMore(rest, raw);
  }

  lemma HoldsEnded(f: Folding, groups: seq<seq<string>>, rest: seq<string>, raw: string)
    requires Holds(f, groups, rest) && !Continues(raw)
    ensures Holds(FoldLine(f, raw), groups + [rest + [raw]], [])
  {
    OnePieceMore(rest, raw);
    assert (groups + [rest + [raw]])[..|groups|] == groups;
  }

  lemma {:induction false} FoldHolds(raws: seq<string>, groups: seq<seq<string>>, rest: seq<string>)
    requires Grouped(raws, groups, rest)
    ensures Holds(FoldLines(raws), groups, rest)
    decreases |raws|
  {
    if |rest| > 0 {
      GroupedOpen(raws, groups, rest);
      FoldHolds(raws[..|raws| - 1], groups, rest[..|rest| - 1]);
      FoldLast(raws);
      HoldsContinued(FoldLines(raws[..|raws| - 1]), groups, rest[..|rest| - 1], raws[|raws| - 1]);
    } else if |groups| > 0 {
      GroupedClosed(raws, groups);
      var n := |groups| - 1;
      var before := groups[n][..|groups[n]| - 1];
      FoldHolds(raws[..|raws| - 1], groups[..n], before);
      FoldLast(raws);
      HoldsEnded(FoldLines(raws[..|raws| - 1]), groups[..n], before, raws[|raws| - 1]);
    } else {
      assert raws == [];
    }
  }

  /**
   * For every text, the logical lines are exactly the groups' stripped pieces joined by single
   * spaces, and a last one for the group that was still being continued, if it has any word.
   */
  lemma LogicalLinesAre(text: string, groups: seq<seq<string>>, rest: seq<string>)
    requires Grouped(SplitLines(text), groups, rest)
    ensures LogicalOf(text)
            == GroupLines(groups) + if Strip(OpenText(rest)) == "" then [] else [Strip(OpenText(rest))]
  {
    FoldHolds(SplitLines(text), groups, rest);
  }

  // --- blank logical lines ------------------------------------------------------------------

  predicate Blank(s: string) { All(s, IsSpace) }

  predicate LoneMark(raw: string) { Continues(raw) && Blank(Piece(raw)) }

  // A run of at least one lone mark, begun where nothing was being continued, then a blank line.
  ghost predicate BlankRun(raws: seq<string>, m: nat, n: nat) {
    && m < n < |raws| && (m == 0 || !Continues(raws[m - 1]))
    && Marks(raws, m, n) && Blank(raws[n])
  }

  // Only lone marks from m up to n.
  ghost predicate Marks(raws: seq<string>, m: nat, n: nat)
    requires m <= n <= |raws|
  {
    m == n || (LoneMark(raws[n - 1]) && Marks(raws, m, n - 1))
  }

  lemma {:induction false} StripLeftOfBlank(s: string)
    ensures StripLeft(s) == "" <==> Blank(s)
    ensures StripLeft(s) != "" ==> !IsSpace(StripLeft(s)[0])
  {
    if s != "" && IsSpace(s[0]) {
      StripLeftOfBlank(s[1..]);
      assert s == [s[0]] + s[1..];
    }
  }

  lemma {:induction false} StripRightKeepsFirst(s: string)
    requires s != "" && !IsSpace(s[0])
    ensures StripRight(s) != "" && StripRight(s)[0] == s[0]
  {
    if IsSpace(s[|s| - 1]) { StripRightKeepsFirst(s[..|s| - 1]); }
  }

  // Stripping leaves nothing exactly of a blank string, and otherwise something that is not blank.
  lemma StripOfBlank(s: string)
    ensures Strip(s) == "" <==> Blank(s)
    ensures Strip(s) != "" ==> !Blank(Strip(s))
  {
    StripLeftOfBlank(s);
    if StripLeft(s) != "" { StripRightKeepsFirst(StripLeft(s)); }
  }

  lemma BlankEnds(raw: string)
    requires Blank(raw)
    ensures !Continues(raw) && Strip(raw) == ""
  {
    StripOfBlank(raw);
  }

  lemma BlankAppend(a: string, b: string)
    ensures Blank(a + b) <==> Blank(a) && Blank(b)
  {
    var whole := a + b;
    assert forall i :: 0 <= i < |a| ==> a[i] == whole[i];
    assert forall i :: 0 <= i < |b| ==> b[i] == whole[|a| + i];
  }

  // A lone mark adds one space to the buffer, and any other continuation adds a word.
  lemma MarkFolds(f: Folding, raw: string)
    requires Continues(raw)
    ensures FoldLine(f, raw).lines == f.lines && FoldLine(f, raw).buffer != ""
    ensures Blank(FoldLine(f, raw).buffer) <==> Blank(f.buffer) && LoneMark(raw)
  {
    var piece := Strip(DropLast(Strip(raw)));
    StripOfBlank(DropLast(Strip(raw)));
    var buffer := FoldLine(f, raw).buffer;
    assert buffer == f.buffer + piece + " ";
    BlankAppend(f.buffer + piece, " ");
    BlankAppend(f.buffer, piece);
  }

  lemma EndFolds(f: Folding, raw: string)
    requires !Continues(raw)
    ensures FoldLine(f, raw).buffer == ""
    ensures FoldLine(f, raw).lines == if f.buffer + Strip(raw) == "" then f.lines else f.lines + [f.buffer + Strip(raw)]
    ensures Blank(f.buffer + Strip(raw)) <==> Blank(f.buffer) && Blank(raw)
  {
    StripOfBlank(raw);
    BlankAppend(f.buffer, Strip(raw));
  }

  // The foldings after each raw line.
  ghost predicate Trace(raws: seq<string>, fs: seq<Folding>) {
    && |fs| == |raws| + 1 && fs[0] == Folding([], "")
    && forall k {:trigger FoldLine(fs[k], raws[k])} :: 0 <= k < |raws| ==> fs[k + 1] == FoldLine(fs[k], raws[k])
  }

  lemma TraceExists(raws: seq<string>) returns (fs: seq<Folding>)
    ensures Trace(raws, fs) && forall k :: 0 <= k <= |raws| ==> fs[k] == FoldLines(raws[..k])
  {
    fs := seq(|raws| + 1, k requires 0 <= k <= |raws| => FoldLines(raws[..k]));
    forall k | 0 <= k < |raws| ensures fs[k + 1] == FoldLine(fs[k], raws[k]) {
      FoldStep(raws, k, fs[k], fs[k + 1]);
    }
  }

  lemma FoldStep(raws: seq<string>, k: nat, f: Folding, g: Folding)
    requires k < |raws| && f == FoldLines(raws[..k]) && g == FoldLines(raws[..k + 1])
    ensures g == FoldLine(f, raws[k])
  {
    assert raws[..k + 1][..k] == raws[..k];
    FoldLast(raws[..k + 1]);
  }

  // One more line, continued or not, in terms of what was folded before.
  lemma MarkStep(raws: seq<string>, fs: seq<Folding>, k: nat)
    requires Trace(raws, fs) && k < |raws| && Continues(raws[k])
    ensures fs[k + 1].lines == fs[k].lines && fs[k + 1].buffer != ""
    ensures Blank(fs[k + 1].buffer) <==> Blank(fs[k].buffer) && LoneMark(raws[k])
  {
    MarkFolds(fs[k], raws[k]);
  }

  lemma EndStep(raws: seq<string>, fs: seq<Folding>, k: nat)
    requires Trace(raws, fs) && k < |raws| && !Continues(raws[k])
    ensures var line := fs[k].buffer + Strip(raws[k]);
            && fs[k + 1] == Folding(if line == "" then fs[k].lines else fs[k].lines + [line], "")
            && (Blank(line) <==> Blank(fs[k].buffer) && Blank(raws[k]))
  {
    EndFolds(fs[k], raws[k]);
  }

  // Where an open buffer began; if it is blank, only lone marks came since.
  lemma {:induction false} BufferBegan(raws: seq<string>, fs: seq<Folding>, n: nat) returns (m: nat)
    requires Trace(raws, fs) && n <= |raws|
    ensures m <= n && (m == 0 || !Continues(raws[m - 1]))
    ensures fs[m] == Folding(fs[n].lines, "")
    ensures m == n <==> fs[n].buffer == ""
    ensures Blank(fs[n].buffer) ==> Marks(raws, m, n)
    decreases n
  {
    m := n;
    if n > 0 {
      if Continues(raws[n - 1]) {
        MarkStep(raws, fs, n - 1);
        m := BufferBegan(raws, fs, n - 1);
      } else {
        EndStep(raws, fs, n - 1);
      }
    }
  }

  function Spaces(n: nat): string { if n == 0 then "" else Spaces(n - 1) + " " }

  lemma {:induction false} SpacesAreBlank(n: nat)
    ensures Blank(Spaces(n)) && |Spaces(n)| == n
  {
    if n > 0 {
      SpacesAreBlank(n - 1);
      BlankAppend(Spaces(n - 1), " ");
    }
  }

  // Each of these lines added one space and nothing else.
  ghost predicate SpaceSteps(fs: seq<Folding>, m: nat, n: nat)
    requires m <= n < |fs|
  {
    forall k :: m <= k < n ==> fs[k + 1] == Folding(fs[k].lines, fs[k].buffer + " ")
  }

  lemma LoneStep(raws: seq<string>, fs: seq<Folding>, k: nat)
    requires Trace(raws, fs) && k < |raws| && LoneMark(raws[k])
    ensures fs[k + 1] == Folding(fs[k].lines, fs[k].buffer + " ")
  {
    StripOfBlank(DropLast(Strip(raws[k])));
    assert fs[k + 1] == FoldLine(fs[k], raws[k]);
    assert fs[k].buffer + "" + " " == fs[k].buffer + " ";
  }

  lemma {:induction false} MarkAt(raws: seq<string>, m: nat, n: nat, k: nat)
    requires m <= k < n <= |raws| && Marks(raws, m, n)
    ensures LoneMark(raws[k])
    decreases n
  {
    if k < n - 1 { MarkAt(raws, m, n - 1, k); }
  }

  lemma MarksAddSpaces(raws: seq<string>, fs: seq<Folding>, m: nat, n: nat)
    requires Trace(raws, fs) && m <= n <= |raws| && Marks(raws, m, n)
    ensures SpaceSteps(fs, m, n)
  {
    forall k | m <= k < n ensures fs[k + 1] == Folding(fs[k].lines, fs[k].buffer + " ") {
      MarkAt(raws, m, n, k);
      LoneStep(raws, fs, k);
    }
  }

  lemma {:induction false} SpacesAddUp(fs: seq<Folding>, m: nat, n: nat)
    requires m <= n < |fs| && fs[m].buffer == "" && SpaceSteps(fs, m, n)
    ensures fs[n] == Folding(fs[m].lines, Spaces(n - m))
    decreases n - m
  {
    if m < n {
      SpacesAddUp(fs, m, n - 1);
      assert fs[n - 1 + 1] == Folding(fs[n - 1].lines, fs[n - 1].buffer + " ");
    }
  }

  // Where nothing is being continued, the buffer is empty.
  lemma NothingOpen(raws: seq<string>, fs: seq<Folding>, m: nat)
    requires Trace(raws, fs) && m <= |raws| && (m == 0 || !Continues(raws[m - 1]))
    ensures fs[m].buffer == ""
  {
    if m > 0 { EndStep(raws, fs, m - 1); }
  }

  // Folding more lines only adds to the lines.
  lemma {:induction false} FoldGrows(raws: seq<string>, fs: seq<Folding>, k: nat, n: nat)
    requires Trace(raws, fs) && k <= n <= |raws|
    ensures fs[k].lines <= fs[n].lines
    decreases n - k
  {
    if k < n {
      FoldGrows(raws, fs, k, n - 1);
      if Continues(raws[n - 1]) { MarkStep(raws, fs, n - 1); } else { EndStep(raws, fs, n - 1); }
    }
  }

  // The raw line that completed the k-th logical line.
  lemma {:induction false} LineCompleted(raws: seq<string>, fs: seq<Folding>, k: nat, n: nat) returns (i: nat)
    requires Trace(raws, fs) && n <= |raws| && k < |fs[n].lines|
    ensures i < n && !Continues(raws[i])
    ensures fs[i].lines == fs[n].lines[..k] && fs[n].lines[k] == fs[i].buffer + Strip(raws[i]) != ""
    decreases n
  {
    if Continues(raws[n - 1]) { MarkStep(raws, fs, n - 1); } else { EndStep(raws, fs, n - 1); }
    if k < |fs[n - 1].lines| {
      i := LineCompleted(raws, fs, k, n - 1);
    } else {
      i := n - 1;
    }
  }

  lemma BlankLineBegan(raws: seq<string>, fs: seq<Folding>, k: nat) returns (m: nat, n: nat)
    requires Trace(raws, fs) && k < |fs[|raws|].lines| && Blank(fs[|raws|].lines[k])
    ensures BlankRun(raws, m, n) && fs[m].lines == fs[|raws|].lines[..k]
  {
    n := LineCompleted(raws, fs, k, |raws|);
    EndStep(raws, fs, n);
    BlankEnds(raws[n]);
    m := BufferBegan(raws, fs, n);
  }

  lemma BlankRunFolds(raws: seq<string>, fs: seq<Folding>, m: nat, n: nat)
    requires Trace(raws, fs) && BlankRun(raws, m, n)
    ensures var lines, k := fs[|raws|].lines, |fs[m].lines|;
            k < |lines| && Blank(lines[k]) && lines[..k] == fs[m].lines
  {
    NothingOpen(raws, fs, m);
    MarksAddSpaces(raws, fs, m, n);
    SpacesAddUp(fs, m, n);
    SpacesAreBlank(n - m);
    BlankEnds(raws[n]);
    EndStep(raws, fs, n);
    FoldGrows(raws, fs, n + 1, |raws|);
  }

  // A run that is reached: what comes before it parses.
  ghost predicate ReachedRun(raws: seq<string>, m: nat, n: nat) {
    BlankRun(raws, m, n) && PackagesFrom(FoldLines(raws[..m]).lines).Ok?
  }

  lemma RaisedReachesRun(text: string) returns (m: nat, n: nat)
    requires ResolutionOf(text).Raised?
    ensures ReachedRun(SplitLines(text), m, n)
  {
    var raws, lines := SplitLines(text), LogicalOf(text);
    ParsingRaisesExactly(text);
    var k :| BlankAt(lines, k);
    BlankIsFolded(FoldLines(raws), lines, k);
    var fs := TraceExists(raws);
    assert raws[..|raws|] == raws;
    m, n := BlankLineBegan(raws, fs, k);
  }

  // The last, unfinished line is never blank.
  lemma BlankIsFolded(f: Folding, lines: seq<string>, k: nat)
    requires lines == if Strip(f.buffer) == "" then f.lines else f.lines + [Strip(f.buffer)]
    requires k < |lines| && Blank(lines[k])
    ensures k < |f.lines| && f.lines[k] == lines[k] && f.lines[..k] == lines[..k]
  {
    StripOfBlank(f.buffer);
  }

  lemma ReachedRunRaises(text: string, m: nat, n: nat)
    requires ReachedRun(SplitLines(text), m, n)
    ensures ResolutionOf(text).Raised?
  {
    var raws, lines := SplitLines(text), LogicalOf(text);
    var fs := TraceExists(raws);
    assert raws[..|raws|] == raws;
    BlankRunFolds(raws, fs, m, n);
    var k := |fs[m].lines|;
    assert lines[..k] == fs[|raws|].lines[..k] && lines[k] == fs[|raws|].lines[k];
    assert BlankAt(lines, k);
    ParsingRaisesExactly(text);
  }

  /**
   * A blank logical line arises exactly from a run of lone continuation marks closed by a blank
   * line, and parsing a text raises exactly when such a run is reached.
   */
  lemma RaisesExactlyOnBlankRun(text: string)
    ensures ResolutionOf(text).Raised? <==> exists m: nat, n: nat :: ReachedRun(SplitLines(text), m, n)
  {
    if ResolutionOf(text).Raised? { var m, n := RaisedReachesRun(text); }
    if m: nat, n: nat :| ReachedRun(SplitLines(text), m, n) { ReachedRunRaises(text, m, n); }
  }

  // The shortest such text: one mark, then an empty line.
  lemma LoneMarkRaises(text: string)
    requires text == "\\\n\n"
    ensures ResolutionOf(text).Raised?
  {
    var raws := SplitLines(text);
    MarkText(text);
    LoneMarkIs(raws[0]);
    assert BlankRun(raws, 0, 1);
    assert raws[..0] == [];
    ReachedRunRaises(text, 0, 1);
  }

  lemma MarkText(text: string)
    requires |text| == 3 && text[0] == '\\' && text[1] == '\n' && text[2] == '\n'
    ensures SplitLines(text) == ["\\", ""]
  {
    var one, two := text[1..], text[1..][1..];
    assert two[1..] == "";
    assert LinesFrom(two, "") == [""];
    assert LinesFrom(one, "\\") == ["\\"] + LinesFrom(two, "");
    assert "" + [text[0]] == "\\";
  }

  lemma LoneMarkIs(raw: string)
    requires |raw| == 1 && raw[0] == '\\'
    ensures LoneMark(raw)
  {
    assert StripLeft(raw) == raw && StripRight(raw) == raw;
    assert raw[|raw| - 1..] == raw == "\\";
  }
}
