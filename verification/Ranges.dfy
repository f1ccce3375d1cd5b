/** For which pairs of halves a range means both of them. */
module Ranges {
  import opened Decimals
  import opened Strings
  import opened Versions

  /** The range text means what its two halves mean together. */
  ghost predicate MeansBoth(left: string, right: string) {
    forall v :: MeansBothFor(left, right, v)
  }

  predicate MeansBothFor(left: string, right: string, v: Version) {
    Satisfies(ParseConstraint(left + "," + right), v)
    <==> Satisfies(ParseConstraint(left), v) && Satisfies(ParseConstraint(right), v)
  }

  // ----- One half

  /** What a half of that kind admits, with that version behind its operator. */
  function Half(k: Kind, v: Version): Constraint
    requires k != Range
  {
    match k
    case Any => Constraint("", Any, NO_VERSION, NO_VERSION)
    case Caret => Constraint("", Caret, v, Version(v.major + 1, 0, 0, ""))
    case Tilde => Constraint("", Tilde, v, Version(v.major, v.minor + 1, 0, ""))
    case _ => Constraint("", k, v, NO_VERSION)
  }

  /** Every text without a comma is a half. */
  lemma TextIsHalf(s: string)
    requires ',' !in s
    ensures var c := ParseConstraint(s);
            c.kind != Range && c == Half(c.kind, c.min).(raw := s)
  {
    hide Parse;
    IndexIs(s, ',', |s|);
  }

  /** The text of a half. */
  function TextOf(k: Kind, v: Version): string
    requires k != Range
  {
    match k
    case Any => "*"
    case Exact => "=" + Str(v)
    case GTE => ">=" + Str(v)
    case LTE => "<=" + Str(v)
    case GT => ">" + Str(v)
    case LT => "<" + Str(v)
    case Caret => "^" + Str(v)
    case Tilde => "~" + Str(v)
  }

  predicate IsPlain(v: Version) {
    IsNatural(v) && v.prerelease == ""
  }

  lemma PlainText(v: Version)
    requires IsPlain(v)
    ensures Str(v) != "" && ',' !in Str(v) && Str(v)[0] != '=' && Parse(Str(v)) == v
  {
    ParseUndoesStrExactly(v);
    hide Parse;
    var a, b, c := Numeral(v.major), Numeral(v.minor), Numeral(v.patch);
    assert Str(v) == a + ("." + (b + ("." + (c + ""))));
    assert ',' !in a && ',' !in b && ',' !in c;
    assert IsDigit(a[0]);
  }

  lemma NoCommaIn(op: string, t: string)
    requires ',' !in op && ',' !in t
    ensures ',' !in op + t
  {
  }

  lemma TextHasNoComma(k: Kind, v: Version)
    requires k != Range && ',' !in Str(v)
    ensures ',' !in TextOf(k, v)
  {
    hide Str;
    match k
    case Any =>
    case Exact => NoCommaIn("=", Str(v));
    case GTE => NoCommaIn(">=", Str(v));
    case LTE => NoCommaIn("<=", Str(v));
    case GT => NoCommaIn(">", Str(v));
    case LT => NoCommaIn("<", Str(v));
    case Caret => NoCommaIn("^", Str(v));
    case Tilde => NoCommaIn("~", Str(v));
  }

  lemma TextParses(k: Kind, v: Version)
    requires k != Range && IsPlain(v)
    ensures ',' !in TextOf(k, v)
    ensures ParseConstraint(TextOf(k, v)) == Half(k, v).(raw := TextOf(k, v))
  {
    PlainText(v);
    TextHasNoComma(k, v);
    assert ParseConstraint("*") == Constraint("*", Any, NO_VERSION, NO_VERSION);
    hide Parse, Str, ParseConstraint;
    match k
    case Any =>
    case Exact => Equals(Str(v));
    case GTE => AtLeast(Str(v));
    case LTE => AtMost(Str(v));
    case GT => Above(Str(v));
    case LT => Below(Str(v));
    case Caret => TildeAndCaret(Str(v));
    case Tilde => TildeAndCaret(Str(v));
  }

  // ----- The pairs that fail

  const LOW := Version(1, 0, 0, "")
  const MIDDLE := Version(2, 0, 0, "")
  const HIGH := Version(3, 0, 0, "")

  /** A version on which the range of 1.0.0 and 3.0.0 differs from its halves. */
  function Witness(left: Kind, right: Kind): Version {
    if right == Any then
      (match left case GT => MIDDLE case LT => Version(0, 5, 0, "") case _ => LOW)
    else
      match left
      case GTE => if right == GT then Version(4, 0, 0, "") else HIGH
      case Any => if right == LT then Version(0, 0, 0, "a") else if right == GT then Version(4, 0, 0, "") else HIGH
      case GT => LOW
      case LT => LOW
      case _ => MIDDLE
  }

  lemma WitnessDiffers(left: Kind, right: Kind)
    requires left != Range && right != Range && !(left == GTE && right == LT)
    ensures var v, l, r := Witness(left, right), Half(left, LOW), Half(right, HIGH);
            Satisfies(Constraint("", Range, l.min, r.min), v) != (Satisfies(l, v) && Satisfies(r, v))
  {
  }

  /** The texts of the two kinds, for every version behind their operators. */
  ghost predicate KindsMeanBoth(left: Kind, right: Kind) {
    forall l, r :: ',' !in l && ',' !in r && ParseConstraint(l).kind == left && ParseConstraint(r).kind == right ==> MeansBoth(l, r)
  }

  lemma RawIsIdle(c: Constraint, raw: string, v: Version)
    ensures Satisfies(c.(raw := raw), v) == Satisfies(c, v)
  {
  }

  /** A range means both of its halves, whatever their versions, exactly when they are >= and <. */
  lemma RangesMeanBothExactly(left: Kind, right: Kind)
    requires left != Range && right != Range
    ensures KindsMeanBoth(left, right) <==> left == GTE && right == LT
  {
    hide ParseConstraint, Less;
    if left == GTE && right == LT {
      forall l, r | ',' !in l && ',' !in r && ParseConstraint(l).kind == left && ParseConstraint(r).kind == right
        ensures MeansBoth(l, r)
      {
        RangeOf(l, r);
        forall v
          ensures MeansBothFor(l, r, v)
        {
        }
      }
    } else {
      var l, r, v := TextOf(left, LOW), TextOf(right, HIGH), Witness(left, right);
      TextParses(left, LOW);
      TextParses(right, HIGH);
      RangeOf(l, r);
      WitnessDiffers(left, right);
      hide Satisfies, TextOf, Half, Witness;
      RawIsIdle(Half(left, LOW), l, v);
      RawIsIdle(Half(right, HIGH), r, v);
      SameRange(ParseConstraint(l + "," + r), Half(left, LOW).min, Half(right, HIGH).min, v);
      assert !MeansBothFor(l, r, v);
      assert !MeansBoth(l, r);
    }
  }

  lemma SameRange(c: Constraint, min: Version, max: Version, v: Version)
    requires c.kind == Range && c.min == min && c.max == max
    ensures Satisfies(c, v) == Satisfies(Constraint("", Range, min, max), v)
  {
  }
}
