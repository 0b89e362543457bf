/** The final versions the parser admits, as the parts they are written from. */
module Versions {
  import opened Wrappers
  import opened Text
  import opened LockParser

  // An epoch, the release groups, and a post release, as section "Version scheme" of PEP 440 has them.
  datatype Version = Version(epoch: Option<string>, groups: seq<string>, post: Option<string>) {
    predicate Valid() {
      && (epoch.Some? ==> Number(epoch.value))
      && |groups| > 0 && (forall i :: 0 <= i < |groups| ==> Number(groups[i]))
      && (post.Some? ==> Number(post.value))
    }

    // Everything between the dots.
    function Parts(): seq<string> { if post.Some? then groups + ["post" + post.value] else groups }

    function Release(): string { Join(Parts(), '.') }

    function Text(): string { (if epoch.Some? then epoch.value + "!" else "") + Release() }
  }

  predicate Number(s: string) { s != "" && forall i :: 0 <= i < |s| ==> s[i] in "0123456789" }

  lemma NumbersAreDigits(s: string)
    ensures Number(s) <==> Digits(s)
  {
    forall c: char ensures c in "0123456789" <==> IsDigit(c) { DigitsAre(c); }
  }

  lemma DigitsAre(c: char)
    ensures c in "0123456789" <==> IsDigit(c)
  {
    if IsDigit(c) {
      var k := (c - '0') as int;
      assert "0123456789"[k] == c;
    }
  }

  lemma NumberIsFree(s: string)
    requires Number(s)
    ensures Free(s, '.') && Free(s, '!')
  {
    NumbersAreDigits(s);
  }

  lemma PartIsFree(v: Version, i: nat)
    requires v.Valid() && i < |v.Parts()|
    ensures Free(v.Parts()[i], '.') && Free(v.Parts()[i], '!')
  {
    if i < |v.groups| { NumberIsFree(v.groups[i]); } else { NumberIsFree(v.post.value); }
  }

  // A release comes apart into its groups and its post release.
  lemma ReleaseReads(v: Version)
    requires v.Valid()
    ensures ReleaseForm(Split(v.Release(), '.')) && Free(v.Release(), '!')
  {
    forall i | 0 <= i < |v.Parts()| ensures Free(v.Parts()[i], '.') && Free(v.Parts()[i], '!') { PartIsFree(v, i); }
    SplitJoin(v.Parts(), '.');
    JoinIsFree(v.Parts());
    PartsHaveForm(v);
  }

  lemma PartsHaveForm(v: Version)
    requires v.Valid()
    ensures ReleaseForm(v.Parts())
  {
    forall i | 0 <= i < |v.groups| ensures Digits(v.groups[i]) { NumbersAreDigits(v.groups[i]); }
    if v.post.Some? {
      NumbersAreDigits(v.post.value);
      var last := "post" + v.post.value;
      assert last[..4] == "post" && last[4..] == v.post.value;
    }
  }

  lemma {:induction false} JoinIsFree(parts: seq<string>)
    requires AllFree(parts, '!')
    ensures Free(Join(parts, '.'), '!')
  {
    if |parts| > 1 { JoinIsFree(parts[1..]); }
  }

  lemma FormHasParts(parts: seq<string>) returns (v: Version)
    requires |parts| > 0 && ReleaseForm(parts)
    ensures v.Valid() && v.epoch.None? && v.Parts() == parts
  {
    var n := |parts| - 1;
    forall i | 0 <= i < n ensures Number(parts[i]) { NumbersAreDigits(parts[i]); }
    NumbersAreDigits(parts[n]);
    if Digits(parts[n]) {
      v := Version(None, parts, None);
    } else {
      NumbersAreDigits(parts[n][4..]);
      v := Version(None, parts[..n], Some(parts[n][4..]));
      assert parts[n] == parts[n][..4] + parts[n][4..];
      assert parts == parts[..n] + [parts[n]];
    }
  }

  lemma TextIsFinal(v: Version)
    requires v.Valid()
    ensures FinalVersion(v.Text())
  {
    ReleaseReads(v);
    var s := v.Text();
    if v.epoch.Some? {
      NumberIsFree(v.epoch.value);
      NumbersAreDigits(v.epoch.value);
      var bang := |v.epoch.value|;
      assert s[bang] == '!' && s[..bang] == v.epoch.value && s[bang + 1..] == v.Release();
      FirstIndex(s, '!', bang);
    } else {
      assert s == v.Release();
    }
  }

  lemma FirstIndex(s: string, c: char, k: nat)
    requires k < |s| && s[k] == c && forall i :: 0 <= i < k ==> s[i] != c
    ensures IndexOf(s, c) == k
  {
  }

  // A release and an epoch before it.
  lemma ReleaseIsText(release: string, epoch: Option<string>) returns (v: Version)
    requires ReleaseForm(Split(release, '.')) && (epoch.Some? ==> Digits(epoch.value))
    ensures v.Valid() && v.Text() == (if epoch.Some? then epoch.value + "!" else "") + release
  {
    v := FormHasParts(Split(release, '.'));
    JoinSplit(release, '.');
    if epoch.Some? { NumbersAreDigits(epoch.value); }
    v := v.(epoch := epoch);
  }

  lemma FinalIsText(s: string) returns (v: Version)
    requires FinalVersion(s)
    ensures v.Valid() && v.Text() == s
  {
    var bang := IndexOf(s, '!');
    if bang < |s| {
      v := ReleaseIsText(s[bang + 1..], Some(s[..bang]));
      assert s == s[..bang] + "!" + s[bang + 1..];
    } else {
      v := ReleaseIsText(s, None);
      assert "" + s == s;
    }
  }

  // The parser's final versions are exactly the texts of versions.
  lemma FinalVersionsAre(s: string)
    ensures FinalVersion(s) <==> exists v: Version :: v.Valid() && v.Text() == s
  {
    if FinalVersion(s) { var v := FinalIsText(s); }
    if v: Version :| v.Valid() && v.Text() == s { TextIsFinal(v); }
  }
}
