/** Semantic versions, their order, and version constraints. */
module Versions {
  import opened Decimals
  import opened Options
  import opened Strings

  datatype Version = Version(major: int, minor: int, patch: int, prerelease: string)

  const NO_VERSION := Version(0, 0, 0, "")

  /** The order of std::string. */
  predicate StringLess(a: string, b: string) {
    if b == [] then false
    else if a == [] then true
    else if a[0] != b[0] then a[0] < b[0]
    else StringLess(a[1..], b[1..])
  }

  /** operator<: by number, then a prerelease before its release, then by prerelease. */
  predicate Less(v: Version, w: Version) {
    if v.major != w.major then v.major < w.major
    else if v.minor != w.minor then v.minor < w.minor
    else if v.patch != w.patch then v.patch < w.patch
    else if v.prerelease == "" && w.prerelease != "" then false
    else if v.prerelease != "" && w.prerelease == "" then true
    else StringLess(v.prerelease, w.prerelease)
  }

  // ----- Printing and parsing

  function PrereleasePart(v: Version): string {
    if v.prerelease == "" then "" else "-" + v.prerelease
  }

  function PatchPart(v: Version): string {
    "." + (Numeral(v.patch) + PrereleasePart(v))
  }

  function MinorPart(v: Version): string {
    "." + (Numeral(v.minor) + PatchPart(v))
  }

  function Str(v: Version): string {
    Numeral(v.major) + MinorPart(v)
  }

  /** What follows a '.', scanned as a number. */
  function ScanDotted(s: string): Option<(int, string)> {
    if s == [] || s[0] != '.' then None else ScanInt(s[1..])
  }

  /** SemanticVersion::parse: sscanf with "%d.%d.%d", then everything behind the first dash. */
  function Parse(s: string): Version {
    match ScanInt(s)
    case None => NO_VERSION
    case Some((major, r1)) =>
      var dash := IndexOf(s, '-');
      var pre := if dash < |s| then s[dash + 1..] else "";
      match ScanDotted(r1)
      case None => Version(major, 0, 0, pre)
      case Some((minor, r2)) =>
        match ScanDotted(r2)
        case None => Version(major, minor, 0, pre)
        case Some((patch, _)) => Version(major, minor, patch, pre)
  }

  function Core(v: Version): string {
    Numeral(v.major) + "." + Numeral(v.minor) + "." + Numeral(v.patch)
  }

  predicate IsNatural(v: Version) {
    v.major >= 0 && v.minor >= 0 && v.patch >= 0
  }

  /** The three numbers are read back, whatever their signs. */
  lemma NumbersReadBack(v: Version)
    ensures var w := Parse(Str(v)); w.major == v.major && w.minor == v.minor && w.patch == v.patch
  {
    hide Numeral, ScanInt;
    StrScans(v);
  }

  /** The three scans of sscanf over a printed version. */
  lemma StrScans(v: Version)
    ensures ScanInt(Str(v)) == Some((v.major, MinorPart(v)))
    ensures ScanDotted(MinorPart(v)) == Some((v.minor, PatchPart(v)))
    ensures ScanDotted(PatchPart(v)) == Some((v.patch, PrereleasePart(v)))
  {
    hide Numeral, ScanInt;
    NumeralScansBack(v.major, MinorPart(v));
    NumeralScansBack(v.minor, PatchPart(v));
    NumeralScansBack(v.patch, PrereleasePart(v));
    assert MinorPart(v)[1..] == Numeral(v.minor) + PatchPart(v);
    assert PatchPart(v)[1..] == Numeral(v.patch) + PrereleasePart(v);
  }

  lemma CoreHasNoDash(v: Version)
    ensures IsNatural(v) ==> forall i :: 0 <= i < |Core(v)| ==> Core(v)[i] != '-'
    ensures !IsNatural(v) ==> exists i :: 0 <= i < |Core(v)| - 1 && Core(v)[i] == '-'
  {
    var a, b, c := Numeral(v.major), Numeral(v.minor), Numeral(v.patch);
    if v.major < 0 {
      assert Core(v)[0] == '-';
    } else if v.minor < 0 {
      assert Core(v)[|a| + 1] == b[0] == '-';
    } else if v.patch < 0 {
      assert Core(v)[|a| + |b| + 2] == c[0] == '-';
    }
  }

  lemma ParsedPrerelease(v: Version)
    ensures Parse(Str(v)).prerelease ==
              var dash := IndexOf(Str(v), '-');
              if dash < |Str(v)| then Str(v)[dash + 1..] else ""
  {
    hide Numeral, ScanInt;
    StrScans(v);
  }

  lemma StrIsCore(v: Version)
    ensures Str(v) == Core(v) + PrereleasePart(v)
  {
    hide Numeral;
  }

  /** A printed version parses back exactly when none of its numbers is negative. */
  lemma ParseUndoesStrExactly(v: Version)
    ensures Parse(Str(v)) == v <==> IsNatural(v)
  {
    var s, core := Str(v), Core(v);
    hide Numeral, Core, Str, Parse;
    StrIsCore(v);
    NumbersReadBack(v);
    ParsedPrerelease(v);
    CoreHasNoDash(v);
    if IsNatural(v) {
      IndexIs(s, '-', |core|);
    } else {
      var i :| 0 <= i < |core| - 1 && core[i] == '-';
      assert s[i] == '-';
      assert |Parse(s).prerelease| >= |v.prerelease| + 1;
    }
  }

  // ----- The order

  lemma {:induction false} StringOrder(a: string, b: string, c: string)
    ensures !StringLess(a, a)
    ensures StringLess(a, b) || a == b || StringLess(b, a)
    ensures StringLess(a, b) && StringLess(b, c) ==> StringLess(a, c)
    decreases |a| + |b| + |c|
  {
    if a != [] && b != [] {
      if c != [] {
        StringOrder(a[1..], b[1..], c[1..]);
      } else {
        StringOrder(a[1..], b[1..], []);
      }
      assert a[0] == b[0] && a[1..] == b[1..] ==> a == [a[0]] + a[1..] == b;
    } else if a != [] {
      StringOrder(a[1..], [], []);
    }
  }

  /** operator< is a strict total order that agrees with operator==. */
  lemma VersionOrder(u: Version, v: Version, w: Version)
    ensures !Less(u, u)
    ensures Less(u, v) || u == v || Less(v, u)
    ensures Less(u, v) && Less(v, w) ==> Less(u, w)
  {
    StringOrder(u.prerelease, v.prerelease, w.prerelease);
  }

  // ----- Constraints

  datatype Kind = Exact | GTE | LTE | GT | LT | Caret | Tilde | Range | Any

  datatype Constraint = Constraint(raw: string, kind: Kind, min: Version, max: Version)

  function ParseConstraint(s: string): Constraint
    decreases |s|
  {
    var comma := IndexOf(s, ',');
    if s == "" || s == "*" then Constraint(s, Any, NO_VERSION, NO_VERSION)
    else if comma < |s| then
      Constraint(s, Range, ParseConstraint(s[..comma]).min, ParseConstraint(s[comma + 1..]).min)
    else if s[0] == '^' then
      var min := Parse(s[1..]);
      Constraint(s, Caret, min, Version(min.major + 1, 0, 0, ""))
    else if s[0] == '~' then
      var min := Parse(s[1..]);
      Constraint(s, Tilde, min, Version(min.major, min.minor + 1, 0, ""))
    else if |s| >= 2 && s[..2] == ">=" then Constraint(s, GTE, Parse(s[2..]), NO_VERSION)
    else if |s| >= 2 && s[..2] == "<=" then Constraint(s, LTE, Parse(s[2..]), NO_VERSION)
    else if s[0] == '>' then Constraint(s, GT, Parse(s[1..]), NO_VERSION)
    else if s[0] == '<' then Constraint(s, LT, Parse(s[1..]), NO_VERSION)
    else if s[0] == '=' then Constraint(s, Exact, Parse(s[1..]), NO_VERSION)
    else Constraint(s, Exact, Parse(s), NO_VERSION)
  }

  predicate Satisfies(c: Constraint, v: Version) {
    match c.kind
    case Any => true
    case Exact => v == c.min
    case GTE => !Less(v, c.min)
    case LTE => Less(v, c.min) || v == c.min
    case GT => Less(c.min, v)
    case LT => Less(v, c.min)
    case Caret => !Less(v, c.min) && Less(v, c.max)
    case Tilde => !Less(v, c.min) && Less(v, c.max)
    case Range => !Less(v, c.min) && Less(v, c.max)
  }

  /** The versions a constraint admits have no gaps. */
  lemma SolutionsAreConvex(c: Constraint, low: Version, v: Version, high: Version)
    requires Satisfies(c, low) && Satisfies(c, high) && !Less(v, low) && !Less(high, v)
    ensures Satisfies(c, v)
  {
    VersionOrder(low, v, c.min);
    VersionOrder(c.min, low, v);
    VersionOrder(v, low, c.min);
    VersionOrder(v, high, c.min);
    VersionOrder(v, high, c.max);
    VersionOrder(high, v, c.min);
    VersionOrder(c.min, v, high);
  }

  lemma RangeOf(left: string, right: string)
    requires ',' !in left
    ensures var c := ParseConstraint(left + "," + right);
            c.kind == Range && c.min == ParseConstraint(left).min && c.max == ParseConstraint(right).min
  {
    hide Parse;
    var s := left + "," + right;
    IndexIs(s, ',', |left|);
    assert s[..|left|] == left && s[|left| + 1..] == right;
  }

  /** Whatever the tilde admits, the caret admits. */
  lemma TildeWithinCaret(s: string, v: Version)
    requires Satisfies(ParseConstraint("~" + s), v)
    ensures Satisfies(ParseConstraint("^" + s), v)
  {
    hide Parse, ParseConstraint;
    var comma := IndexOf(s, ',');
    if comma < |s| {
      var left, right := s[..comma], s[comma + 1..];
      assert "~" + s == "~" + left + "," + right && "^" + s == "^" + left + "," + right;
      RangeOf("~" + left, right);
      RangeOf("^" + left, right);
      TildeAndCaret(left);
    } else {
      TildeAndCaret(s);
    }
  }

  lemma TildeAndCaret(s: string)
    requires ',' !in s
    ensures var m := Parse(s);
            && ParseConstraint("~" + s) == Constraint("~" + s, Tilde, m, Version(m.major, m.minor + 1, 0, ""))
            && ParseConstraint("^" + s) == Constraint("^" + s, Caret, m, Version(m.major + 1, 0, 0, ""))
  {
    hide Parse;
    IndexIs("~" + s, ',', |s| + 1);
    IndexIs("^" + s, ',', |s| + 1);
    assert ("~" + s)[1..] == s == ("^" + s)[1..];
  }

  lemma AtLeast(a: string)
    requires ',' !in a
    ensures ParseConstraint(">=" + a) == Constraint(">=" + a, GTE, Parse(a), NO_VERSION)
  {
    hide Parse;
    IndexIs(">=" + a, ',', |a| + 2);
    assert (">=" + a)[..2] == ">=" && (">=" + a)[2..] == a;
  }

  lemma AtMost(a: string)
    requires ',' !in a
    ensures ParseConstraint("<=" + a) == Constraint("<=" + a, LTE, Parse(a), NO_VERSION)
  {
    hide Parse;
    IndexIs("<=" + a, ',', |a| + 2);
    assert ("<=" + a)[..2] == "<=" && ("<=" + a)[2..] == a;
  }

  lemma Below(a: string)
    requires ',' !in a && (a == "" || a[0] != '=')
    ensures ParseConstraint("<" + a) == Constraint("<" + a, LT, Parse(a), NO_VERSION)
  {
    hide Parse;
    var s := "<" + a;
    IndexIs(s, ',', |a| + 1);
    assert s[1..] == a;
    assert |s| >= 2 ==> s[..2][1] == a[0];
  }

  lemma Above(a: string)
    requires ',' !in a && (a == "" || a[0] != '=')
    ensures ParseConstraint(">" + a) == Constraint(">" + a, GT, Parse(a), NO_VERSION)
  {
    hide Parse;
    var s := ">" + a;
    IndexIs(s, ',', |a| + 1);
    assert s[1..] == a;
    assert |s| >= 2 ==> s[..2][1] == a[0];
  }

  lemma Bare(a: string)
    requires ',' !in a && a != "" && IsDigit(a[0])
    ensures ParseConstraint(a) == Constraint(a, Exact, Parse(a), NO_VERSION)
  {
    hide Parse;
    IndexIs(a, ',', |a|);
    assert |a| >= 2 ==> a[..2][0] == a[0];
  }

  lemma Equals(a: string)
    requires ',' !in a
    ensures ParseConstraint("=" + a) == Constraint("=" + a, Exact, Parse(a), NO_VERSION)
  {
    hide Parse;
    var s := "=" + a;
    IndexIs(s, ',', |a| + 1);
    assert s[1..] == a;
    assert |s| >= 2 ==> s[..2][0] == '=';
  }

  /** A half-open range means both of its halves. */
  lemma RangeMeansBoth(a: string, b: string, v: Version)
    requires ',' !in a && ',' !in b && (b == "" || b[0] != '=')
    ensures Satisfies(ParseConstraint(">=" + a + "," + ("<" + b)), v)
       <==> Satisfies(ParseConstraint(">=" + a), v) && Satisfies(ParseConstraint("<" + b), v)
  {
    hide Parse, Less, ParseConstraint;
    RangeOf(">=" + a, "<" + b);
    AtLeast(a);
    Below(b);
  }

  /** A closed range loses its upper end: the operator of the right half is not looked at. */
  lemma ClosedRangeLosesItsEnd(a: string, b: string, v: Version)
    requires ',' !in a && ',' !in b
    ensures Satisfies(ParseConstraint(">=" + a + "," + ("<=" + b)), v)
       <==> Satisfies(ParseConstraint(">=" + a), v) && Satisfies(ParseConstraint("<=" + b), v) && v != Parse(b)
  {
    hide Parse, Less, ParseConstraint;
    RangeOf(">=" + a, "<=" + b);
    AtLeast(a);
    AtMost(b);
    VersionOrder(v, v, v);
  }
}
