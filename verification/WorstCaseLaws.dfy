/** Which corners the mask loop visits, and when its extremes bound the whole tolerance box. */
module WorstCaseLaws {
  import opened Reals
  import opened WorstCase

  // ----- Masks and sign choices

  /** The mask whose bit j is choice j. */
  function Mask(choice: seq<bool>): nat {
    if choice == [] then 0 else (if choice[0] then 1 else 0) + 2 * Mask(choice[1..])
  }

  lemma {:induction false} MaskIsBounded(choice: seq<bool>)
    ensures Mask(choice) < Pow2(|choice|)
  {
    if choice != [] {
      MaskIsBounded(choice[1..]);
    }
  }

  lemma {:induction false} MaskBits(choice: seq<bool>, j: nat)
    requires j < |choice|
    ensures Bit(Mask(choice), j) == choice[j]
  {
    if j > 0 {
      MaskBits(choice[1..], j - 1);
      assert Mask(choice) / 2 == Mask(choice[1..]);
    }
  }

  lemma {:induction false} BitsDetermine(i: nat, k: nat, n: nat)
    requires i < Pow2(n) && k < Pow2(n) && forall j :: 0 <= j < n ==> Bit(i, j) == Bit(k, j)
    ensures i == k
  {
    if n > 0 {
      assert Bit(i, 0) == Bit(k, 0);
      forall j | 0 <= j < n - 1
        ensures Bit(i / 2, j) == Bit(k / 2, j)
      {
        assert Bit(i, j + 1) == Bit(k, j + 1);
      }
      BitsDetermine(i / 2, k / 2, n - 1);
    }
  }

  predicate Chooses(i: nat, choice: seq<bool>) {
    forall j :: 0 <= j < |choice| ==> Bit(i, j) == choice[j]
  }

  /** With at most 8 components the loop visits every choice of signs, each at exactly one mask. */
  lemma EveryChoiceOnce(cs: seq<Component>, choice: seq<bool>)
    requires |cs| <= 8 && |choice| == |cs|
    ensures CornerCount(cs) == Pow2(|cs|)
    ensures Mask(choice) < CornerCount(cs) && Chooses(Mask(choice), choice)
    ensures forall i: nat :: i < CornerCount(cs) && Chooses(i, choice) ==> i == Mask(choice)
  {
    PowersUpTo8(|cs|);
    MaskIsBounded(choice);
    forall j | 0 <= j < |choice|
      ensures Bit(Mask(choice), j) == choice[j]
    {
      MaskBits(choice, j);
    }
    forall i: nat | i < Pow2(|cs|) && Chooses(i, choice)
      ensures i == Mask(choice)
    {
      BitsDetermine(i, Mask(choice), |cs|);
    }
  }

  lemma Pow2Grows(n: nat, k: nat)
    requires n <= k
    ensures Pow2(n) <= Pow2(k)
  {
  }

  lemma PowersUpTo8(n: nat)
    ensures Pow2(8) == 256
    ensures n <= 8 ==> Pow2(n) <= 256
    ensures n >= 8 ==> Pow2(n) >= 256
  {
    assert Pow2(4) == 16;
    assert Pow2(8) == 256;
    if n <= 8 {
      Pow2Grows(n, 8);
    } else {
      Pow2Grows(8, n);
    }
  }

  // ----- The box and the outputs over it

  /** Shifting by j divides by 2^j. */
  lemma {:induction false} ShiftDivides(i: nat, j: nat)
    ensures Pow2(j) > 0 && Shift(i, j) == i / Pow2(j)
  {
    Pow2IsPositive(j);
    if j > 0 {
      Pow2IsPositive(j - 1);
      ShiftDivides(i / 2, j - 1);
      HalvesFirst(i, Pow2(j - 1));
    }
  }

  lemma SmallMultiple(d: int, p: int)
    requires -p < d * p < p
    ensures d == 0
  {
  }

  lemma DoubledProduct(p: int, q: int)
    ensures (2 * p) * q == 2 * (p * q)
  {
  }

  lemma HalvesFirst(i: nat, p: nat)
    requires p > 0
    ensures i / 2 / p == i / (2 * p)
  {
    var a := i / 2;
    var q, r := a / p, a % p;
    assert a == p * q + r;
    DoubledProduct(p, q);
    QuotientIs(i, 2 * p, q, 2 * r + i % 2);
  }

  lemma QuotientIs(n: nat, p: nat, q: nat, r: int)
    requires p > 0 && n == p * q + r && 0 <= r < p
    ensures n / p == q
  {
    var d := n / p - q;
    assert d * p == r - n % p;
    SmallMultiple(d, p);
  }

  ghost predicate DistinctComponents(cs: seq<Component>) {
    && (forall i, j :: 0 <= i < j < |cs| ==> cs[i].name != cs[j].name)
    && (forall i :: 0 <= i < |cs| ==> cs[i].tolerance >= 0.0)
  }

  predicate InRange(c: Component, x: real) {
    c.nominal - c.tolerance <= x <= c.nominal + c.tolerance
  }

  /** A value for every component and nothing else, each within its tolerance. */
  ghost predicate InBox(cs: seq<Component>, v: Values) {
    && (forall j :: 0 <= j < |cs| ==> cs[j].name in v && InRange(cs[j], v[cs[j].name]))
    && (forall n :: n in v ==> exists j :: 0 <= j < |cs| && cs[j].name == n)
  }

  /** Along one component the output at t lies between the outputs at the ends of a range around t. */
  predicate Between(run: Values -> real, v: Values, n: string, low: real, t: real, high: real) {
    var a, x, b := run(v[n := low]), run(v[n := t]), run(v[n := high]);
    (a <= x <= b) || (b <= x <= a)
  }

  ghost predicate EndsBound(run: Values -> real) {
    forall v, n, low, t, high :: low <= t <= high ==> Between(run, v, n, low, t, high)
  }

  /** Affine in each component separately. */
  predicate Interpolates(run: Values -> real, v: Values, n: string, a: real, b: real, w: real) {
    run(v[n := a + w * (b - a)]) == run(v[n := a]) + w * (run(v[n := b]) - run(v[n := a]))
  }

  ghost predicate IsSeparatelyAffine(run: Values -> real) {
    forall v, n, a, b, w :: Interpolates(run, v, n, a, b, w)
  }

  lemma WeightOf(a: real, t: real, b: real) returns (w: real)
    requires a <= t <= b && a < b
    ensures 0.0 <= w <= 1.0 && t == a + w * (b - a)
  {
    var d, e := b - a, t - a;
    w := e / d;
    assert w * d == e;
    assert Times(w, d) == e;
    assert Times(w - 1.0, d) == e - d;
    SignOfProduct(w, d);
    SignOfProduct(w - 1.0, d);
    hide Times;
  }

  lemma WeightedIsBetween(x: real, d: real, w: real)
    requires 0.0 <= w <= 1.0
    ensures d >= 0.0 ==> x <= x + w * d <= x + d
    ensures d <= 0.0 ==> x + d <= x + w * d <= x
  {
    SignOfProduct(w, d);
    SignOfProduct(1.0 - w, d);
    SignOfProduct(w, -d);
    SignOfProduct(1.0 - w, -d);
    assert Times(w, d) == w * d && Times(1.0 - w, d) == d - w * d;
    assert Times(w, -d) == -(w * d) && Times(1.0 - w, -d) == w * d - d;
  }

  lemma AffineEndsBound(run: Values -> real)
    requires IsSeparatelyAffine(run)
    ensures EndsBound(run)
  {
    forall v, n, low, t, high | low <= t <= high
      ensures Between(run, v, n, low, t, high)
    {
      if low < high {
        var w := WeightOf(low, t, high);
        assert Interpolates(run, v, n, low, high, w);
        WeightedIsBetween(run(v[n := low]), run(v[n := high]) - run(v[n := low]), w);
      }
    }
  }

  // ----- Moving a point of the box to a corner

  /** v with the first k components at the chosen ends. */
  function Moved(cs: seq<Component>, v: Values, choice: seq<bool>, k: nat): Values
    requires k <= |cs| && k <= |choice|
  {
    if k == 0 then v else Moved(cs, v, choice, k - 1)[cs[k - 1].name := Extreme(cs[k - 1], choice[k - 1])]
  }

  lemma {:induction false} MovedKeeps(cs: seq<Component>, v: Values, choice: seq<bool>, k: nat, n: string)
    requires k <= |cs| && k <= |choice|
    ensures (forall j :: 0 <= j < k ==> cs[j].name != n) ==>
              (n in Moved(cs, v, choice, k) <==> n in v) && (n in v ==> Moved(cs, v, choice, k)[n] == v[n])
  {
    if k > 0 {
      MovedKeeps(cs, v, choice, k - 1, n);
    }
  }

  lemma {:induction false} MovedPrefix(cs: seq<Component>, v: Values, a: seq<bool>, b: seq<bool>, k: nat)
    requires k <= |cs| && k <= |a| && k <= |b| && a[..k] == b[..k]
    ensures Moved(cs, v, a, k) == Moved(cs, v, b, k)
  {
    if k > 0 {
      assert a[..k - 1] == a[..k][..k - 1] == b[..k][..k - 1] == b[..k - 1];
      assert a[k - 1] == a[..k][k - 1] == b[..k][k - 1] == b[k - 1];
      MovedPrefix(cs, v, a, b, k - 1);
    }
  }

  lemma MovedOnce(cs: seq<Component>, v: Values, choice: seq<bool>, high: bool, k: nat)
    requires k < |cs| && k == |choice|
    ensures Moved(cs, v, choice + [high], k + 1) == Moved(cs, v, choice, k)[cs[k].name := Extreme(cs[k], high)]
  {
    hide Extreme;
    MovedPrefix(cs, v, choice + [high], choice, k);
  }

  /** Some choice of ends for the first k components does not lower (or does not raise) the output. */
  lemma {:induction false} MoveToEnds(run: Values -> real, cs: seq<Component>, v: Values, k: nat, up: bool)
      returns (choice: seq<bool>)
    requires EndsBound(run) && DistinctComponents(cs) && InBox(cs, v) && k <= |cs|
    ensures |choice| == k
    ensures up ==> run(Moved(cs, v, choice, k)) >= run(v)
    ensures !up ==> run(Moved(cs, v, choice, k)) <= run(v)
  {
    hide Between, EndsBound, Extreme;
    if k == 0 {
      choice := [];
    } else {
      var shorter := MoveToEnds(run, cs, v, k - 1, up);
      var at, c := Moved(cs, v, shorter, k - 1), cs[k - 1];
      MovedKeeps(cs, v, shorter, k - 1, c.name);
      assert InRange(c, v[c.name]);
      var high := OneToEnd(run, at, c, up);
      choice := shorter + [high];
      MovedOnce(cs, v, shorter, high, k - 1);
      hide Moved;
    }
  }

  lemma OneToEnd(run: Values -> real, at: Values, c: Component, up: bool) returns (high: bool)
    requires EndsBound(run) && c.name in at && InRange(c, at[c.name])
    ensures up ==> run(at[c.name := Extreme(c, high)]) >= run(at)
    ensures !up ==> run(at[c.name := Extreme(c, high)]) <= run(at)
  {
    assert at[c.name := at[c.name]] == at;
    assert Between(run, at, c.name, c.nominal - c.tolerance, at[c.name], c.nominal + c.tolerance);
    high := (run(at[c.name := Extreme(c, true)]) >= run(at[c.name := Extreme(c, false)])) == up;
  }

  lemma {:induction false} MovedIsCorner(cs: seq<Component>, v: Values, choice: seq<bool>, i: nat, k: nat)
    requires DistinctComponents(cs) && |choice| == |cs| && k <= |cs|
    requires forall j :: 0 <= j < |cs| ==> Extreme(cs[j], choice[j]) == Extreme(cs[j], Bit(i, j))
    ensures forall j :: 0 <= j < k ==>
              && cs[j].name in Moved(cs, v, choice, k) && cs[j].name in CornerTo(cs, i, k)
              && Moved(cs, v, choice, k)[cs[j].name] == CornerTo(cs, i, k)[cs[j].name]
    ensures forall n :: n in CornerTo(cs, i, k) <==> exists j :: 0 <= j < k && cs[j].name == n
    ensures forall n :: n in Moved(cs, v, choice, k) <==> n in v || exists j :: 0 <= j < k && cs[j].name == n
  {
    hide Extreme, Bit;
    if k > 0 {
      MovedIsCorner(cs, v, choice, i, k - 1);
    }
  }

  /** Moving every component of a point of the box ends at a corner. */
  lemma MovedAllIsCorner(cs: seq<Component>, v: Values, choice: seq<bool>, i: nat)
    requires DistinctComponents(cs) && InBox(cs, v) && |choice| == |cs|
    requires forall j :: 0 <= j < |cs| ==> Extreme(cs[j], choice[j]) == Extreme(cs[j], Bit(i, j))
    ensures Moved(cs, v, choice, |cs|) == Corner(cs, i)
  {
    MovedIsCorner(cs, v, choice, i, |cs|);
    hide Extreme, Bit, CornerTo;
    var a, b := Moved(cs, v, choice, |cs|), Corner(cs, i);
    assert forall n :: n in a <==> n in b;
    forall n | n in a
      ensures a[n] == b[n]
    {
      var j :| 0 <= j < |cs| && cs[j].name == n;
    }
  }

  // ----- When the visited corners bound the box

  /** Some visited corner gives no more, and some visited corner no less, than the point. */
  ghost predicate IsBounded(run: Values -> real, cs: seq<Component>, v: Values) {
    && (exists i :: 0 <= i < CornerCount(cs) && run(Corner(cs, i)) <= run(v))
    && (exists i :: 0 <= i < CornerCount(cs) && run(v) <= run(Corner(cs, i)))
  }

  /** No component beyond the eighth has a tolerance. */
  ghost predicate IsCovered(cs: seq<Component>) {
    forall j :: 8 <= j < |cs| ==> cs[j].tolerance == 0.0
  }

  lemma {:induction false} MaskOfPrefix(choice: seq<bool>, n: nat)
    requires forall j :: n <= j < |choice| ==> !choice[j]
    ensures Mask(choice) < Pow2(n)
  {
    if choice == [] {
      Pow2IsPositive(n);
    } else if n == 0 {
      MaskOfPrefix(choice[1..], 0);
    } else {
      MaskOfPrefix(choice[1..], n - 1);
    }
  }

  /** Without tolerances beyond the eighth component, a visited mask makes every choice of ends. */
  lemma VisitedMask(cs: seq<Component>, choice: seq<bool>) returns (i: nat)
    requires IsCovered(cs) && |choice| == |cs|
    ensures i < CornerCount(cs)
    ensures forall j :: 0 <= j < |cs| ==> Extreme(cs[j], choice[j]) == Extreme(cs[j], Bit(i, j))
  {
    var low := seq(|cs|, j requires 0 <= j < |cs| => j < 8 && choice[j]);
    i := Mask(low);
    PowersUpTo8(|cs|);
    MaskIsBounded(low);
    MaskOfPrefix(low, 8);
    forall j | 0 <= j < |cs|
      ensures Extreme(cs[j], choice[j]) == Extreme(cs[j], Bit(i, j))
    {
      MaskBits(low, j);
    }
  }

  /** The extremes over the visited corners bound every output over the box. */
  lemma CornersBoundBox(run: Values -> real, cs: seq<Component>, v: Values)
    requires EndsBound(run) && DistinctComponents(cs) && IsCovered(cs) && InBox(cs, v)
    ensures IsBounded(run, cs, v)
  {
    hide EndsBound, DistinctComponents, IsCovered, InBox, Corner;
    var down := MoveToEnds(run, cs, v, |cs|, false);
    var i := VisitedMask(cs, down);
    MovedAllIsCorner(cs, v, down, i);
    var up := MoveToEnds(run, cs, v, |cs|, true);
    var k := VisitedMask(cs, up);
    MovedAllIsCorner(cs, v, up, k);
  }

  /** The worst cases reported over the visited corners bound the output at every point of the box. */
  lemma ExtremesBoundBox(run: Values -> real, cs: seq<Component>, low: nat, high: nat, v: Values)
    requires EndsBound(run) && DistinctComponents(cs) && IsCovered(cs) && InBox(cs, v)
    requires IsFirstLeast(run, Corners(cs), low) && IsFirstGreatest(run, Corners(cs), high)
    ensures run(Corners(cs)[low]) <= run(v) <= run(Corners(cs)[high])
  {
    CornersBoundBox(run, cs, v);
    var i :| 0 <= i < CornerCount(cs) && run(Corner(cs, i)) <= run(v);
    var k :| 0 <= k < CornerCount(cs) && run(v) <= run(Corner(cs, k));
    hide Corner;
    assert run(Corners(cs)[low]) <= run(Corners(cs)[i]);
    assert run(Corners(cs)[k]) <= run(Corners(cs)[high]);
  }

  /** The corners that are reported are the only ones of their kind. */
  lemma FirstsAreUnique(run: Values -> real, corners: seq<Values>, low: nat, high: nat, k: nat)
    requires IsFirstLeast(run, corners, low) && IsFirstGreatest(run, corners, high) && k < |corners|
    ensures IsFirstLeast(run, corners, k) <==> k == low
    ensures IsFirstGreatest(run, corners, k) <==> k == high
    ensures (k < low ==> run(corners[low]) < run(corners[k])) && (k < high ==> run(corners[k]) < run(corners[high]))
  {
  }

  lemma {:induction false} ShiftedAway(i: nat, j: nat)
    requires i < Pow2(j)
    ensures !Bit(i, j)
  {
    if j > 0 {
      ShiftedAway(i / 2, j - 1);
    }
  }

  lemma {:induction false} CornerAt(cs: seq<Component>, i: nat, count: nat, j: nat)
    requires DistinctComponents(cs) && j < count <= |cs|
    ensures cs[j].name in CornerTo(cs, i, count) && CornerTo(cs, i, count)[cs[j].name] == Extreme(cs[j], Bit(i, j))
  {
    hide Extreme, Bit;
    if j < count - 1 {
      CornerAt(cs, i, count - 1, j);
    }
  }

  /**
    * Corner i holds every component at an end of its range: at the upper end where i counts an odd number of
    * 2^j, at the lower end elsewhere. Nothing else has a value, so every corner lies in the box.
    */
  lemma CornerMeans(cs: seq<Component>, i: nat, j: nat)
    requires DistinctComponents(cs) && j < |cs|
    ensures Pow2(j) > 0 && cs[j].name in Corner(cs, i)
    ensures i / Pow2(j) % 2 == 1 ==> Corner(cs, i)[cs[j].name] == cs[j].nominal + cs[j].tolerance
    ensures i / Pow2(j) % 2 == 0 ==> Corner(cs, i)[cs[j].name] == cs[j].nominal - cs[j].tolerance
    ensures InBox(cs, Corner(cs, i))
  {
    ShiftDivides(i, j);
    CornerAt(cs, i, |cs|, j);
    forall k | 0 <= k < |cs|
      ensures cs[k].name in Corner(cs, i) && InRange(cs[k], Corner(cs, i)[cs[k].name])
    {
      CornerAt(cs, i, |cs|, k);
    }
    CornerNames(cs, i, |cs|);
  }

  lemma {:induction false} CornerNames(cs: seq<Component>, i: nat, count: nat)
    requires count <= |cs|
    ensures forall n :: n in CornerTo(cs, i, count) ==> exists j :: 0 <= j < count && cs[j].name == n
  {
    if count > 0 {
      CornerNames(cs, i, count - 1);
    }
  }

  function AllHigh(cs: seq<Component>, count: nat): Values
    requires count <= |cs|
  {
    if count == 0 then map[] else AllHigh(cs, count - 1)[cs[count - 1].name := Extreme(cs[count - 1], true)]
  }

  lemma {:induction false} AllHighAt(cs: seq<Component>, count: nat)
    requires DistinctComponents(cs) && count <= |cs|
    ensures forall j :: 0 <= j < count ==>
              cs[j].name in AllHigh(cs, count) && AllHigh(cs, count)[cs[j].name] == Extreme(cs[j], true)
    ensures forall n :: n in AllHigh(cs, count) ==> exists j :: 0 <= j < count && cs[j].name == n
  {
    hide Extreme;
    if count > 0 {
      AllHighAt(cs, count - 1);
    }
  }

  /** The output that is simply the value of one component. */
  function ValueOf(n: string): Values -> real {
    v => if n in v then v[n] else 0.0
  }

  lemma ValueIsAffine(n: string)
    ensures IsSeparatelyAffine(ValueOf(n))
  {
    forall v: Values, m, a, b, w
      ensures Interpolates(ValueOf(n), v, m, a, b, w)
    {
      if m != n {
        var x := ValueOf(n)(v);
        assert w * (x - x) == 0.0;
      }
    }
  }

  lemma UncoveredIsUnbounded(cs: seq<Component>, j: nat)
    requires DistinctComponents(cs) && 8 <= j < |cs| && cs[j].tolerance > 0.0
    ensures InBox(cs, AllHigh(cs, |cs|)) && !IsBounded(ValueOf(cs[j].name), cs, AllHigh(cs, |cs|))
  {
    var v := AllHigh(cs, |cs|);
    AllHighAt(cs, |cs|);
    forall k | 0 <= k < |cs|
      ensures InRange(cs[k], v[cs[k].name])
    {
    }
    PowersUpTo8(j);
    forall i | 0 <= i < CornerCount(cs)
      ensures ValueOf(cs[j].name)(Corner(cs, i)) < ValueOf(cs[j].name)(v)
    {
      ShiftedAway(i, j);
      CornerAt(cs, i, |cs|, j);
    }
  }

  /**
    * The extremes bound every separately affine output over the whole box exactly when no component beyond the
    * eighth has a tolerance.
    */
  lemma CornersBoundBoxExactly(cs: seq<Component>)
    requires DistinctComponents(cs)
    ensures IsCovered(cs) <==>
              forall run: Values -> real, v: Values :: IsSeparatelyAffine(run) && InBox(cs, v) ==> IsBounded(run, cs, v)
  {
    hide IsSeparatelyAffine, InBox, IsBounded;
    if IsCovered(cs) {
      forall run: Values -> real, v: Values | IsSeparatelyAffine(run) && InBox(cs, v)
        ensures IsBounded(run, cs, v)
      {
        AffineEndsBound(run);
        CornersBoundBox(run, cs, v);
      }
    } else {
      var j :| 8 <= j < |cs| && cs[j].tolerance != 0.0;
      UncoveredIsUnbounded(cs, j);
      ValueIsAffine(cs[j].name);
    }
  }
}
