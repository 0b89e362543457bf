/** What a built candidate lock holds, and exactly when one is built. */
module LockContents {
  import opened Wrappers
  import opened Text
  import opened LockParser
  import opened LockRecords
  import opened RequirementLines
  import opened Versions

  // --- times --------------------------------------------------------------------------------

  // A number below one hundred, as it is written.
  function Two(n: nat): string
    requires n < 100
  {
    [DIGITS[n / 10], DIGITS[n % 10]]
  }

  // A time of day on a date, every field with its leading zeros.
  datatype Moment = Moment(century: nat, year: nat, month: nat, day: nat, hour: nat, minute: nat, second: nat) {
    predicate Written() {
      century < 100 && year < 100 && month < 100 && day < 100 && hour < 100 && minute < 100 && second < 100
    }

    predicate OnTheClock() { hour < 24 && minute < 60 && second < 60 }

    function Text(): string
      requires Written()
    {
      Two(century) + Two(year) + "-" + Two(month) + "-" + Two(day) + "T"
      + Two(hour) + ":" + Two(minute) + ":" + Two(second) + "Z"
    }
  }

  lemma DigitAt(k: nat)
    requires k < 10
    ensures DIGITS[k] == '0' + k as char && IsDigit(DIGITS[k])
  {
  }

  lemma TwoAre(n: nat)
    requires n < 100
    ensures var s := Two(n); |s| == 2 && IsDigit(s[0]) && IsDigit(s[1]) && n == Value(s[0], s[1])
  {
    DigitAt(n / 10);
    DigitAt(n % 10);
  }

  function Value(a: char, b: char): nat
    requires IsDigit(a) && IsDigit(b)
  {
    10 * ((a - '0') as nat) + (b - '0') as nat
  }

  lemma ValueIsWritten(a: char, b: char)
    requires IsDigit(a) && IsDigit(b)
    ensures Value(a, b) < 100 && Two(Value(a, b)) == [a, b]
  {
    var n := Value(a, b);
    assert n / 10 == (a - '0') as nat && n % 10 == (b - '0') as nat;
    DigitAt(n / 10);
    DigitAt(n % 10);
  }

  // The places of the fields.
  predicate Punctuated(s: string) {
    |s| == 20 && s[4] == '-' && s[7] == '-' && s[10] == 'T' && s[13] == ':' && s[16] == ':' && s[19] == 'Z'
  }

  predicate Pair(s: string, i: nat)
    requires |s| == 20 && i + 1 < 20
  {
    IsDigit(s[i]) && IsDigit(s[i + 1])
  }

  predicate Fields(s: string)
    requires |s| == 20
  {
    Pair(s, 0) && Pair(s, 2) && Pair(s, 5) && Pair(s, 8) && Pair(s, 11) && Pair(s, 14) && Pair(s, 17)
  }

  lemma PairIsDigits(s: string, i: nat)
    requires |s| == 20 && i + 2 <= 20
    ensures Digits(s[i..i + 2]) <==> Pair(s, i)
  {
    var t := s[i..i + 2];
    assert t[0] == s[i] && t[1] == s[i + 1];
  }

  lemma YearIsDigits(s: string)
    requires |s| == 20
    ensures Digits(s[0..4]) <==> Pair(s, 0) && Pair(s, 2)
  {
    var t := s[0..4];
    assert t[0] == s[0] && t[1] == s[1] && t[2] == s[2] && t[3] == s[3];
  }

  lemma TimeFields(s: string)
    ensures TimeForm(s) <==> Punctuated(s) && Fields(s)
  {
    if |s| == 20 {
      YearIsDigits(s);
      PairIsDigits(s, 5);
      PairIsDigits(s, 8);
      PairIsDigits(s, 11);
      PairIsDigits(s, 14);
      PairIsDigits(s, 17);
    }
  }

  lemma MomentFields(m: Moment)
    requires m.Written()
    ensures var s := m.Text();
            && Punctuated(s) && Fields(s)
            && m.hour == Value(s[11], s[12]) && m.minute == Value(s[14], s[15]) && m.second == Value(s[17], s[18])
  {
    TwoAre(m.century);
    TwoAre(m.year);
    TwoAre(m.month);
    TwoAre(m.day);
    TwoAre(m.hour);
    TwoAre(m.minute);
    TwoAre(m.second);
  }

  lemma MomentOf(s: string) returns (m: Moment)
    requires Punctuated(s) && Fields(s)
    ensures m.Written() && m.Text() == s
    ensures m.hour == Value(s[11], s[12]) && m.minute == Value(s[14], s[15]) && m.second == Value(s[17], s[18])
  {
    ValueIsWritten(s[0], s[1]);
    ValueIsWritten(s[2], s[3]);
    ValueIsWritten(s[5], s[6]);
    ValueIsWritten(s[8], s[9]);
    ValueIsWritten(s[11], s[12]);
    ValueIsWritten(s[14], s[15]);
    ValueIsWritten(s[17], s[18]);
    m := Moment(Value(s[0], s[1]), Value(s[2], s[3]), Value(s[5], s[6]), Value(s[8], s[9]), Value(s[11], s[12]),
                Value(s[14], s[15]), Value(s[17], s[18]));
  }

  lemma ClockFields(s: string)
    requires Punctuated(s) && Fields(s)
    ensures UtcForm(s) <==> Value(s[11], s[12]) < 24 && Value(s[14], s[15]) < 60 && Value(s[17], s[18]) < 60
  {
    TimeFields(s);
  }

  // The request accepts every written time, the lock record only those on the clock.
  lemma TimesAre(s: string)
    ensures TimeForm(s) <==> exists m: Moment :: m.Written() && m.Text() == s
    ensures UtcForm(s) <==> exists m: Moment :: m.Written() && m.OnTheClock() && m.Text() == s
  {
    TimeFields(s);
    if TimeForm(s) {
      var m := MomentOf(s);
      ClockFields(s);
    }
    forall m: Moment | m.Written() && m.Text() == s
      ensures TimeForm(s) && (m.OnTheClock() <==> UtcForm(s))
    {
      MomentFields(m);
      ClockFields(s);
    }
  }

  // --- records ------------------------------------------------------------------------------

  // The requirement, and each digest after a space and its algorithm.
  function Evidence(p: Package): string { Join([p.requirement] + Marked(p.hashes), ' ') }

  function Marked(hashes: seq<string>): seq<string> {
    seq(|hashes|, i requires 0 <= i < |hashes| => "sha256:" + hashes[i])
  }

  lemma {:induction false} HashListIs(hashes: seq<string>)
    requires hashes != []
    ensures HashList(hashes) == Join(Marked(hashes), ' ')
  {
    if |hashes| > 1 {
      HashListIs(hashes[1..]);
      assert Marked(hashes)[1..] == Marked(hashes[1..]);
      assert Marked(hashes)[0] == "sha256:" + hashes[0];
    }
  }

  lemma EvidenceIs(p: Package)
    requires p.hashes != []
    ensures EvidenceLine(p) == Evidence(p)
  {
    HashListIs(p.hashes);
    var words := [p.requirement] + Marked(p.hashes);
    assert words[1..] == Marked(p.hashes) && words[0] == p.requirement;
  }

  // The candidate is the package of this name, with its executable.
  ghost predicate IsCandidate(c: Candidate, name: string, packages: seq<Package>) {
    && c.name == name && c.executable == "bin/" + name
    && exists i :: 0 <= i < |packages| &&
         (packages[i].name, packages[i].version, packages[i].requirement, packages[i].hashes) ==
         (name, c.version, c.requirement, c.hashes)
  }

  // The lock of these packages, read from a text for a freeze time.
  ghost predicate Records(lock: CandidateLock, text: string, excludeNewer: string, packages: seq<Package>) {
    && lock.excludeNewer == excludeNewer && lock.packages == packages && lock.rawSize == |text|
    && |lock.candidates| == 2
    && IsCandidate(lock.candidates[0], "pyrefly", packages) && IsCandidate(lock.candidates[1], "ty", packages)
    && Sorted(lock.lines)
    && multiset(lock.lines) == multiset(seq(|packages|, i requires 0 <= i < |packages| => Evidence(packages[i])))
  }

  lemma LinesAreEvidence(packages: seq<Package>)
    requires forall i :: 0 <= i < |packages| ==> packages[i].hashes != []
    ensures EvidenceLines(packages) == seq(|packages|, i requires 0 <= i < |packages| => Evidence(packages[i]))
    ensures Sorted(DeriveLines(packages)) && multiset(DeriveLines(packages)) == multiset(EvidenceLines(packages))
  {
    forall i | 0 <= i < |packages| ensures EvidenceLine(packages[i]) == Evidence(packages[i]) {
      EvidenceIs(packages[i]);
    }
    SortBySorts(EvidenceLines(packages), name => name);
  }

  lemma LockRecordsAll(text: string, excludeNewer: string, packages: seq<Package>)
    requires GoodPackages(packages) && HasCandidates(packages)
    ensures Records(LockOf(text, excludeNewer, packages), text, excludeNewer, packages)
  {
    forall i | 0 <= i < |packages| ensures packages[i].hashes != [] { assert GoodPackage(packages[i]); }
    LinesAreEvidence(packages);
  }

  /**
   * A lock is built exactly when the text resolves, both candidates are among its packages, and
   * the freeze time is on the clock; it then holds those packages, the two candidates with their
   * executables, and one line of evidence for each package.
   */
  lemma BuiltExactlyWhen(text: string, excludeNewer: string)
    ensures var build := BuildLock(text, excludeNewer);
            var both := ResolutionOf(text).Ok? &&
                        HasName(ResolutionOf(text).value, "pyrefly") && HasName(ResolutionOf(text).value, "ty");
            && (build.NotParsed? <==> !ResolutionOf(text).Ok?)
            && (build.Missing? <==> ResolutionOf(text).Ok? && !both)
            && (build.Built? <==> both && exists m: Moment :: m.Written() && m.OnTheClock() && m.Text() == excludeNewer)
            && (build.Built? ==> Records(build.lock, text, excludeNewer, ResolutionOf(text).value))
  {
    TimesAre(excludeNewer);
    if ResolutionOf(text).Ok? && HasCandidates(ResolutionOf(text).value) {
      RecordsNeverRefuse(text, excludeNewer);
      LockRecordsAll(text, excludeNewer, ResolutionOf(text).value);
    }
  }
}
