/** The string operations the harness relies on: split, join, prefixes, code-point order, sorting. */
module Text {

  // str.split with a one-character separator: never empty.
  function Split(s: string, sep: char): (parts: seq<string>)
    ensures |parts| >= 1
  {
    if s == "" then [""] else Attach(s[0], Split(s[1..], sep), sep)
  }

  // One more character in front of what is already split.
  function Attach(c: char, parts: seq<string>, sep: char): (r: seq<string>)
    requires |parts| >= 1
    ensures |r| >= 1
  {
    if c == sep then [""] + parts else [[c] + parts[0]] + parts[1..]
  }

  function Join(parts: seq<string>, sep: char): string {
    if |parts| == 0 then ""
    else if |parts| == 1 then parts[0]
    else parts[0] + [sep] + Join(parts[1..], sep)
  }

  // No character of s is the separator.
  predicate Free(s: string, sep: char) { forall i :: 0 <= i < |s| ==> s[i] != sep }

  predicate AllFree(parts: seq<string>, sep: char) { forall i :: 0 <= i < |parts| ==> Free(parts[i], sep) }

  // What a directory can hold: a non-empty name with no slash that is not a dot.
  predicate Component(name: string) { Free(name, '/') && name != "" && name != "." && name != ".." }

  predicate StartsWith(s: string, prefix: string) { |prefix| <= |s| && s[..|prefix|] == prefix }

  predicate EndsWith(s: string, suffix: string) { |suffix| <= |s| && s[|s| - |suffix|..] == suffix }

  lemma {:induction false} JoinSplit(s: string, sep: char)
    ensures Join(Split(s, sep), sep) == s
  {
    if s != "" {
      JoinSplit(s[1..], sep);
      var rest := Split(s[1..], sep);
      if s[0] != sep && |rest| > 1 {
        assert ([[s[0]] + rest[0]] + rest[1..])[1..] == rest[1..];
      } else if s[0] == sep {
        assert ([""] + rest)[1..] == rest;
      }
    }
  }

  lemma {:induction false} SplitFree(s: string, sep: char)
    ensures AllFree(Split(s, sep), sep)
  {
    if s != "" { SplitFree(s[1..], sep); }
  }

  lemma {:induction false} SplitOfFree(s: string, sep: char)
    requires Free(s, sep)
    ensures Split(s, sep) == [s]
  {
    if s != "" {
      SplitOfFree(s[1..], sep);
      assert [s[0]] + s[1..] == s;
    }
  }

  lemma AttachAppend(c: char, a: seq<string>, b: seq<string>, sep: char)
    requires |a| >= 1
    ensures Attach(c, a + b, sep) == Attach(c, a, sep) + b
  {
    assert (a + b)[1..] == a[1..] + b;
  }

  // Splitting a concatenation around one separator.
  lemma {:induction false} SplitAppend(a: string, b: string, sep: char)
    ensures Split(a + [sep] + b, sep) == Split(a, sep) + Split(b, sep)
  {
    var whole := a + [sep] + b;
    if a == "" {
      assert whole[1..] == b;
    } else {
      assert whole[1..] == a[1..] + [sep] + b;
      SplitAppend(a[1..], b, sep);
      AttachAppend(a[0], Split(a[1..], sep), Split(b, sep), sep);
    }
  }

  lemma {:induction false} SplitJoin(parts: seq<string>, sep: char)
    requires |parts| > 0 && AllFree(parts, sep)
    ensures Split(Join(parts, sep), sep) == parts
  {
    SplitOfFree(parts[0], sep);
    if |parts| > 1 {
      SplitJoin(parts[1..], sep);
      SplitAppend(parts[0], Join(parts[1..], sep), sep);
    }
  }

  lemma {:induction false} JoinAppend(a: seq<string>, b: seq<string>, sep: char)
    requires |a| > 0 && |b| > 0
    ensures Join(a + b, sep) == Join(a, sep) + [sep] + Join(b, sep)
  {
    if |a| == 1 {
      assert (a + b)[1..] == b;
    } else {
      JoinAppend(a[1..], b, sep);
      assert (a + b)[1..] == a[1..] + b;
    }
  }

  // Joining with a longer last part.
  lemma {:induction false} JoinSuffix(parts: seq<string>, tail: string, sep: char)
    requires |parts| > 0
    ensures Join(parts[..|parts| - 1] + [parts[|parts| - 1] + tail], sep) == Join(parts, sep) + tail
  {
    var n := |parts| - 1;
    var longer := parts[..n] + [parts[n] + tail];
    if n > 0 {
      JoinAppend(parts[..n], [parts[n] + tail], sep);
      JoinAppend(parts[..n], [parts[n]], sep);
      assert parts == parts[..n] + [parts[n]];
    }
  }

  // --- order --------------------------------------------------------------------------------

  // Python's string order: code point by code point.
  predicate Below(a: string, b: string) {
    |a| == 0 || (|b| > 0 && (a[0] < b[0] || (a[0] == b[0] && Below(a[1..], b[1..]))))
  }

  // The first place where two strings differ decides, and a prefix comes first.
  ghost predicate Precedes(a: string, b: string, k: nat) {
    k <= |a| && k <= |b| && a[..k] == b[..k] && (k == |a| || (k < |b| && a[k] < b[k]))
  }

  lemma {:induction false} BelowExactly(a: string, b: string)
    ensures Below(a, b) <==> exists k: nat :: Precedes(a, b, k)
  {
    if a == "" {
      assert Precedes(a, b, 0);
    } else if b != "" && a[0] == b[0] {
      BelowExactly(a[1..], b[1..]);
      if k: nat :| Precedes(a[1..], b[1..], k) {
        assert a[..k + 1] == [a[0]] + a[1..][..k] && b[..k + 1] == [b[0]] + b[1..][..k];
        assert Precedes(a, b, k + 1);
      }
      if k: nat :| Precedes(a, b, k) && k > 0 {
        assert a[1..][..k - 1] == a[..k][1..] && b[1..][..k - 1] == b[..k][1..];
        assert Precedes(a[1..], b[1..], k - 1);
      }
    } else if b != "" {
      assert Precedes(a, b, 0) <==> a[0] < b[0];
      forall k: nat | 0 < k <= |a| && k <= |b| ensures !Precedes(a, b, k) {
        assert a[..k][0] == a[0] && b[..k][0] == b[0];
      }
    }
  }

  lemma {:induction false} BelowTotal(a: string, b: string)
    ensures Below(a, b) || Below(b, a)
  {
    if a != "" && b != "" && a[0] == b[0] { BelowTotal(a[1..], b[1..]); }
  }

  lemma {:induction false} BelowAntisymmetric(a: string, b: string)
    requires Below(a, b) && Below(b, a)
    ensures a == b
  {
    if a != "" && b != "" {
      BelowAntisymmetric(a[1..], b[1..]);
      assert a == [a[0]] + a[1..] && b == [b[0]] + b[1..];
    }
  }

  lemma {:induction false} BelowTransitive(a: string, b: string, c: string)
    requires Below(a, b) && Below(b, c)
    ensures Below(a, c)
  {
    if a != "" && b != "" && c != "" && a[0] == b[0] == c[0] { BelowTransitive(a[1..], b[1..], c[1..]); }
  }

  predicate Sorted(names: seq<string>) { forall i, j :: 0 <= i < j < |names| ==> Below(names[i], names[j]) }

  predicate Distinct(names: seq<string>) { forall i, j :: 0 <= i < j < |names| ==> names[i] != names[j] }

  // Each name comes strictly after the one before it.
  predicate Ascending(names: seq<string>) {
    forall i :: 0 < i < |names| ==> Below(names[i - 1], names[i]) && names[i - 1] != names[i]
  }

  lemma {:induction false} AscendingReaches(names: seq<string>, i: nat, j: nat)
    requires Ascending(names) && i < j < |names|
    ensures Below(names[i], names[j]) && names[i] != names[j]
  {
    assert Below(names[j - 1], names[j]) && names[j - 1] != names[j];
    if i < j - 1 {
      AscendingReaches(names, i, j - 1);
      BelowTransitive(names[i], names[j - 1], names[j]);
      if names[i] == names[j] { BelowAntisymmetric(names[j - 1], names[j]); }
    }
  }

  lemma AscendingIs(names: seq<string>)
    ensures Ascending(names) <==> Sorted(names) && Distinct(names)
  {
    if Ascending(names) {
      forall i, j | 0 <= i < j < |names| ensures Below(names[i], names[j]) && names[i] != names[j] {
        AscendingReaches(names, i, j);
      }
    }
  }

  // --- sorting ------------------------------------------------------------------------------

  predicate SortedBy<T>(xs: seq<T>, key: T -> string) {
    forall i, j :: 0 <= i < j < |xs| ==> Below(key(xs[i]), key(xs[j]))
  }

  predicate DistinctBy<T>(xs: seq<T>, key: T -> string) {
    forall i, j :: 0 <= i < j < |xs| ==> key(xs[i]) != key(xs[j])
  }

  function Insert<T>(x: T, xs: seq<T>, key: T -> string): seq<T> {
    if |xs| == 0 then [x]
    else if Below(key(x), key(xs[0])) then [x] + xs
    else [xs[0]] + Insert(x, xs[1..], key)
  }

  // sorted(..., key=...)
  function SortBy<T>(xs: seq<T>, key: T -> string): seq<T> {
    if |xs| == 0 then [] else Insert(xs[0], SortBy(xs[1..], key), key)
  }

  // sorted() of strings
  function Sort(names: seq<string>): seq<string> { SortBy(names, name => name) }

  lemma {:induction false} InsertMembers<T>(x: T, xs: seq<T>, key: T -> string)
    ensures multiset(Insert(x, xs, key)) == multiset(xs) + multiset{x}
  {
    if |xs| > 0 {
      assert xs == [xs[0]] + xs[1..];
      InsertMembers(x, xs[1..], key);
    }
  }

  // Where an element of a sequence with known contents comes from.
  lemma Locate<T>(y: T, ys: seq<T>, xs: seq<T>) returns (k: nat)
    requires y in ys && multiset(ys) <= multiset(xs)
    ensures k < |xs| && xs[k] == y
  {
    assert y in multiset(ys) && y in multiset(xs);
    k :| k < |xs| && xs[k] == y;
  }

  lemma {:induction false} InsertSorted<T>(x: T, xs: seq<T>, key: T -> string)
    requires SortedBy(xs, key)
    ensures SortedBy(Insert(x, xs, key), key)
  {
    if |xs| > 0 {
      if Below(key(x), key(xs[0])) {
        forall j | 0 <= j < |xs| ensures Below(key(x), key(xs[j])) {
          if j > 0 { BelowTransitive(key(x), key(xs[0]), key(xs[j])); }
        }
      } else {
        BelowTotal(key(x), key(xs[0]));
        InsertSorted(x, xs[1..], key);
        InsertMembers(x, xs[1..], key);
        var rest := Insert(x, xs[1..], key);
        forall j | 0 <= j < |rest| ensures Below(key(xs[0]), key(rest[j])) {
          var k := Locate(rest[j], rest, xs[1..] + [x]);
        }
      }
    }
  }

  lemma {:induction false} SortBySorts<T>(xs: seq<T>, key: T -> string)
    ensures SortedBy(SortBy(xs, key), key) && multiset(SortBy(xs, key)) == multiset(xs)
  {
    if |xs| > 0 {
      SortBySorts(xs[1..], key);
      InsertSorted(xs[0], SortBy(xs[1..], key), key);
      InsertMembers(xs[0], SortBy(xs[1..], key), key);
      assert xs == [xs[0]] + xs[1..];
    }
  }

  lemma SortByMembers<T>(xs: seq<T>, key: T -> string)
    ensures |SortBy(xs, key)| == |xs| && forall x :: x in SortBy(xs, key) <==> x in xs
  {
    SortBySorts(xs, key);
    assert |multiset(SortBy(xs, key))| == |multiset(xs)|;
    forall x ensures x in SortBy(xs, key) <==> x in xs {
      assert x in SortBy(xs, key) <==> x in multiset(SortBy(xs, key));
    }
  }

  // Inserting a key that is not there keeps distinct keys distinct.
  lemma {:induction false} InsertDistinct<T>(x: T, xs: seq<T>, key: T -> string)
    requires DistinctBy(xs, key) && forall i :: 0 <= i < |xs| ==> key(xs[i]) != key(x)
    ensures DistinctBy(Insert(x, xs, key), key)
  {
    if |xs| > 0 && !Below(key(x), key(xs[0])) {
      InsertDistinct(x, xs[1..], key);
      InsertMembers(x, xs[1..], key);
      var rest := Insert(x, xs[1..], key);
      forall j | 0 <= j < |rest| ensures key(xs[0]) != key(rest[j]) {
        var k := Locate(rest[j], rest, xs[1..] + [x]);
      }
    }
  }

  // Sorting by key keeps distinct keys distinct.
  lemma {:induction false} SortByDistinct<T>(xs: seq<T>, key: T -> string)
    requires DistinctBy(xs, key)
    ensures DistinctBy(SortBy(xs, key), key)
  {
    if |xs| > 0 {
      SortByDistinct(xs[1..], key);
      SortBySorts(xs[1..], key);
      var rest := SortBy(xs[1..], key);
      forall i | 0 <= i < |rest| ensures key(rest[i]) != key(xs[0]) {
        var k := Locate(rest[i], rest, xs[1..]);
      }
      InsertDistinct(xs[0], rest, key);
    }
  }

  // The same for plain strings.
  lemma SortDistinct(names: seq<string>)
    requires Distinct(names)
    ensures Distinct(Sort(names)) && Sorted(Sort(names)) && |Sort(names)| == |names|
    ensures forall n :: n in Sort(names) <==> n in names
  {
    var key := (name: string) => name;
    SortByDistinct(names, key);
    SortBySorts(names, key);
    SortByMembers(names, key);
    assert forall i :: 0 <= i < |Sort(names)| ==> key(Sort(names)[i]) == Sort(names)[i];
  }
}
