/** What newer means, what the operators admit and what a version looks like, in numbers and characters. */
module VersionLaws {
  import opened Decimals
  import opened Options
  import opened Strings
  import opened Versions
  import opened Ranges
  import opened Resolver
  import opened ResolverLaws

  // ----- Newer

  /** The first number in which two versions differ decides, the larger number being newer, whatever follows it. */
  lemma NumbersDecide(v: Version, w: Version)
    ensures v.major < w.major ==> Less(v, w)
    ensures v.major == w.major && v.minor < w.minor ==> Less(v, w)
    ensures v.major == w.major && v.minor == w.minor && v.patch < w.patch ==> Less(v, w)
  {
    hide StringLess;
  }

  /** The texts agree up to a place where the first one ends or has the smaller character. */
  ghost predicate ComesBefore(a: string, b: string) {
    exists k :: IsDifference(a, b, k)
  }

  predicate IsDifference(a: string, b: string, k: nat) {
    && k <= |a| && k < |b| && a[..k] == b[..k]
    && (k == |a| || a[k] < b[k])
  }

  lemma DifferenceShifts(a: string, b: string, k: nat)
    requires a != "" && b != "" && a[0] == b[0]
    ensures IsDifference(a[1..], b[1..], k) <==> IsDifference(a, b, k + 1)
  {
    if k + 1 <= |a| && k + 1 < |b| {
      assert a[..k + 1] == [a[0]] + a[1..][..k];
      assert b[..k + 1] == [b[0]] + b[1..][..k];
      assert a[..k + 1][1..] == a[1..][..k] && b[..k + 1][1..] == b[1..][..k];
    }
  }

  lemma {:induction false} TextOrder(a: string, b: string)
    ensures StringLess(a, b) <==> ComesBefore(a, b)
  {
    if a == "" || b == "" {
      assert b != "" && a == "" ==> IsDifference(a, b, 0);
    } else if a[0] != b[0] {
      if a[0] < b[0] {
        assert IsDifference(a, b, 0);
      }
      forall k: nat | k > 0 && k <= |a| && k < |b|
        ensures a[..k] != b[..k]
      {
        assert a[..k][0] == a[0] && b[..k][0] == b[0];
      }
    } else {
      TextOrder(a[1..], b[1..]);
      if k: nat :| IsDifference(a[1..], b[1..], k) {
        DifferenceShifts(a, b, k);
      }
      if k: nat :| IsDifference(a, b, k) {
        assert k > 0;
        DifferenceShifts(a, b, k - 1);
      }
    }
  }

  /** A prerelease comes before its release, and two prereleases of one version stand as their texts do. */
  lemma PrereleasesDecide(v: Version, w: Version)
    requires v.major == w.major && v.minor == w.minor && v.patch == w.patch
    ensures v.prerelease != "" && w.prerelease == "" ==> Less(v, w)
    ensures v.prerelease == "" ==> !Less(v, w)
    ensures v.prerelease != "" && w.prerelease != "" ==> (Less(v, w) <==> ComesBefore(v.prerelease, w.prerelease))
  {
    TextOrder(v.prerelease, w.prerelease);
  }

  /** The selected version has the highest numbers of all candidates. */
  lemma SelectsHighestNumbers(reg: Registry, name: string, c: Constraint, resolved: Assignment, v: Version)
    requires Valid(reg) && IsCandidate(reg, name, c, resolved, v)
    ensures var best := SelectBest(reg, name, c, resolved);
            && best.major >= v.major
            && (best.major == v.major ==> best.minor >= v.minor)
            && (best.major == v.major && best.minor == v.minor ==> best.patch >= v.patch)
            && (best.major == v.major && best.minor == v.minor && best.patch == v.patch && v.prerelease == "" ==>
                  best.prerelease == "")
  {
    SelectsGreatest(reg, name, c, resolved, v);
    hide IsCandidate, SelectBest, Valid;
    var best := SelectBest(reg, name, c, resolved);
    NumbersDecide(best, v);
    if best.major == v.major && best.minor == v.minor && best.patch == v.patch {
      PrereleasesDecide(best, v);
    }
  }

  // ----- What the operators admit

  /** Every operator, in terms of the order alone. */
  lemma OperatorsMean(v: Version, w: Version)
    requires IsPlain(v)
    ensures Satisfies(ParseConstraint("*"), w) && Satisfies(ParseConstraint(""), w)
    ensures Satisfies(ParseConstraint("=" + Str(v)), w) <==> w == v
    ensures Satisfies(ParseConstraint(Str(v)), w) <==> w == v
    ensures Satisfies(ParseConstraint(">=" + Str(v)), w) <==> w == v || Less(v, w)
    ensures Satisfies(ParseConstraint("<=" + Str(v)), w) <==> w == v || Less(w, v)
    ensures Satisfies(ParseConstraint(">" + Str(v)), w) <==> Less(v, w)
    ensures Satisfies(ParseConstraint("<" + Str(v)), w) <==> Less(w, v)
  {
    TextParses(GTE, v);
    TextParses(LTE, v);
    TextParses(GT, v);
    TextParses(LT, v);
    TextParses(Exact, v);
    BareText(v);
    assert ParseConstraint("*").kind == Any && ParseConstraint("").kind == Any;
    VersionOrder(v, w, v);
    VersionOrder(w, v, w);
    hide ParseConstraint, Str, Less;
  }

  lemma BareText(v: Version)
    requires IsPlain(v)
    ensures ParseConstraint(Str(v)).kind == Exact && ParseConstraint(Str(v)).min == v
  {
    PlainText(v);
    PlainStart(v);
    Bare(Str(v));
  }

  lemma PlainStart(v: Version)
    requires IsPlain(v)
    ensures Str(v) != "" && IsDigit(Str(v)[0])
  {
    assert Str(v)[0] == Numeral(v.major)[0];
  }

  /** A caret keeps the major number, and a tilde the minor one too; prereleases of the next one slip in. */
  lemma CaretAndTildeKeepNumbers(v: Version, w: Version)
    requires IsPlain(v) && IsNatural(w)
    ensures Satisfies(ParseConstraint("^" + Str(v)), w) <==>
              && (w == v || Less(v, w))
              && (w.major == v.major || (w.major == v.major + 1 && w.minor == 0 && w.patch == 0 && w.prerelease != ""))
    ensures Satisfies(ParseConstraint("~" + Str(v)), w) <==>
              && (w == v || Less(v, w))
              && w.major == v.major
              && (w.minor == v.minor || (w.minor == v.minor + 1 && w.patch == 0 && w.prerelease != ""))
  {
    TextParses(Caret, v);
    TextParses(Tilde, v);
    VersionOrder(v, w, v);
    hide ParseConstraint, Str, StringLess;
  }

  // ----- What versions look like

  /** Numbers between dots, then a dash and the prerelease. */
  lemma VersionsLookLikeThis()
    ensures Str(Version(1, 20, 3, "beta")) == "1.20.3-beta"
    ensures Str(Version(0, 5, -12, "")) == "0.5.-12"
  {
    SmallNumerals();
    hide Numeral;
  }

  lemma SmallNumerals()
    ensures Numeral(0) == "0" && Numeral(1) == "1" && Numeral(3) == "3" && Numeral(5) == "5"
    ensures Numeral(20) == "20" && Numeral(-12) == "-12"
  {
    assert Digits(2) == "2" && Digits(1) == "1";
    assert Digits(20) == Digits(2) + [DigitChar(0)];
    assert Digits(12) == Digits(1) + [DigitChar(2)];
  }

  lemma NoDashIn(a: string, b: string)
    requires '-' !in a && '-' !in b
    ensures IndexOf(a + b, '-') == |a + b|
  {
    IndexIs(a + b, '-', |a + b|);
  }

  lemma NaturalHasNoDash(a: nat)
    ensures '-' !in Numeral(a)
  {
  }

  /** Missing numbers are 0, and no number at all is the marker 0.0.0. */
  lemma ShortVersions(a: nat, b: nat)
    ensures Parse(Numeral(a)) == Version(a, 0, 0, "")
    ensures Parse(Numeral(a) + ("." + Numeral(b))) == Version(a, b, 0, "")
    ensures Parse("") == Version(0, 0, 0, "")
  {
    NaturalHasNoDash(a);
    NaturalHasNoDash(b);
    hide Numeral;
    NumeralScansBack(a, "");
    NumeralScansBack(a, "." + Numeral(b));
    NumeralScansBack(b, "");
    hide ScanInt;
    NoDashIn(Numeral(a), "");
    NoDashIn(Numeral(a), "." + Numeral(b));
    assert Numeral(a) + "" == Numeral(a) && Numeral(b) + "" == Numeral(b);
    assert ("." + Numeral(b))[1..] == Numeral(b);
    NothingScans();
  }

  lemma NothingScans()
    ensures ScanInt("") == None
  {
  }

  /** A registered version 0.0.0 is taken for none. */
  lemma MarkerIsNotFound(deps: seq<Dependency>)
    ensures var reg := map["a" := [Metadata("a", Version(0, 0, 0, ""), deps)]];
            Visit(reg, 100, Dependency("a", ParseConstraint("*")), 0, map[], []).error == Some(Unsatisfied("a", "*"))
  {
    var reg := map["a" := [Metadata("a", Version(0, 0, 0, ""), deps)]];
    var c := ParseConstraint("*");
    assert c.kind == Any && c.raw == "*";
    assert SelectBest(reg, "a", c, map[]) == NO_VERSION;
  }
}
