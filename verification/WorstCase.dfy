/** Worst-case analysis over the corners of a tolerance box. */
module WorstCase {

  type Values = map<string, real>

  /** A limit or a margin; the default limits are infinite. */
  datatype Extended = NegInfinity | Finite(value: real) | PosInfinity {
    predicate AtMost(other: Extended) {
      match (this, other)
      case (NegInfinity, _) => true
      case (_, PosInfinity) => true
      case (Finite(x), Finite(y)) => x <= y
      case _ => false
    }
  }

  function Minus(x: real, limit: Extended): Extended {
    match limit
    case NegInfinity => PosInfinity
    case Finite(y) => Finite(x - y)
    case PosInfinity => NegInfinity
  }

  function LimitMinus(limit: Extended, x: real): Extended {
    match limit
    case NegInfinity => NegInfinity
    case Finite(y) => Finite(y - x)
    case PosInfinity => PosInfinity
  }

  function Least(a: Extended, b: Extended): Extended {
    if a.AtMost(b) then a else b
  }

  datatype Component = Component(name: string, nominal: real, tolerance: real)

  function Pow2(n: nat): nat {
    if n == 0 then 1 else 2 * Pow2(n - 1)
  }

  /** i >> j: j halvings. */
  function Shift(i: nat, j: nat): nat {
    if j == 0 then i else Shift(i / 2, j - 1)
  }

  predicate Bit(i: nat, j: nat) {
    Shift(i, j) % 2 == 1
  }

  function Extreme(c: Component, high: bool): real {
    if high then c.nominal + c.tolerance else c.nominal - c.tolerance
  }

  /** The values of corner i for the first `count` components. */
  function CornerTo(cs: seq<Component>, i: nat, count: nat): Values
    requires count <= |cs|
  {
    if count == 0 then map[]
    else CornerTo(cs, i, count - 1)[cs[count - 1].name := Extreme(cs[count - 1], Bit(i, count - 1))]
  }

  function Corner(cs: seq<Component>, i: nat): Values {
    CornerTo(cs, i, |cs|)
  }

  const MAX_CORNERS := 256

  /** The corners the loop visits. */
  function CornerCount(cs: seq<Component>): (n: nat)
    ensures 1 <= n <= MAX_CORNERS
  {
    Pow2IsPositive(|cs|);
    if Pow2(|cs|) < MAX_CORNERS then Pow2(|cs|) else MAX_CORNERS
  }

  lemma Pow2IsPositive(n: nat)
    ensures Pow2(n) >= 1
  {
  }

  function Corners(cs: seq<Component>): (corners: seq<Values>)
    ensures |corners| == CornerCount(cs)
  {
    seq(CornerCount(cs), i requires 0 <= i => Corner(cs, i))
  }

  /** Corner k gives the least output, and no corner before it gives as little. */
  ghost predicate IsFirstLeast(run: Values -> real, corners: seq<Values>, k: nat) {
    && k < |corners|
    && (forall i :: 0 <= i < |corners| ==> run(corners[k]) <= run(corners[i]))
    && (forall i :: 0 <= i < k ==> run(corners[k]) < run(corners[i]))
  }

  ghost predicate IsFirstGreatest(run: Values -> real, corners: seq<Values>, k: nat) {
    && k < |corners|
    && (forall i :: 0 <= i < |corners| ==> run(corners[i]) <= run(corners[k]))
    && (forall i :: 0 <= i < k ==> run(corners[i]) < run(corners[k]))
  }

  datatype Result = Result(nominal: real, worstMin: real, worstMax: real, minCorner: nat, maxCorner: nat,
                           margin: Extended, meetsSpec: bool, corners: seq<Values>,
                           violations: nat, recommendations: nat)

  /** An output lies within the limits. */
  predicate Within(x: real, low: Extended, high: Extended) {
    && !low.PosInfinity? && (low.Finite? ==> low.value <= x)
    && !high.NegInfinity? && (high.Finite? ==> x <= high.value)
  }

  /** The worst cases may move outwards by d and are still within the limits. */
  predicate IsSlack(d: real, worstMin: real, worstMax: real, low: Extended, high: Extended) {
    Within(worstMin - d, low, PosInfinity) && Within(worstMax + d, NegInfinity, high)
  }

  predicate IsUpTo(d: real, margin: Extended) {
    margin.PosInfinity? || (margin.Finite? && d <= margin.value)
  }

  class WorstCaseAnalyzer {
    var components: seq<Component>
    var specMin: Extended
    var specMax: Extended

    constructor ()
      ensures components == [] && specMin == NegInfinity && specMax == PosInfinity
    {
      components, specMin, specMax := [], NegInfinity, PosInfinity;
    }

    method AddComponent(name: string, nominal: real, tolerance: real)
      modifies this`components
      ensures components == old(components) + [Component(name, nominal, tolerance)]
    {
      components := components + [Component(name, nominal, tolerance)];
    }

    method SetSpecLimits(low: Extended, high: Extended)
      modifies this`specMin, this`specMax
      ensures specMin == low && specMax == high
    {
      specMin, specMax := low, high;
    }

    method CornerValues(i: nat) returns (values: Values)
      ensures values == Corner(components, i)
    {
      values := map[];
      for j := 0 to |components|
        invariant values == CornerTo(components, i, j)
      {
        var c := components[j];
        if Bit(i, j) {
          values := values[c.name := c.nominal + c.tolerance];
        } else {
          values := values[c.name := c.nominal - c.tolerance];
        }
      }
    }

    /** The loop over the corners; `run` stands for the simulation of one corner. */
    method RunCorners(run: Values -> real)
      returns (worstMin: real, worstMax: real, minCorner: nat, maxCorner: nat, corners: seq<Values>)
      requires |components| <= 30
      ensures corners == Corners(components)
      ensures IsFirstLeast(run, corners, minCorner) && worstMin == run(corners[minCorner])
      ensures IsFirstGreatest(run, corners, maxCorner) && worstMax == run(corners[maxCorner])
    {
      hide Corner, Pow2;
      var numCorners := Pow2(|components|);
      Pow2IsPositive(|components|);
      worstMin, worstMax, minCorner, maxCorner, corners := 0.0, 0.0, 0, 0, [];
      var i := 0;
      while i < numCorners && i < MAX_CORNERS
        invariant 0 <= i <= numCorners && i <= MAX_CORNERS && |corners| == i
        invariant forall k :: 0 <= k < i ==> corners[k] == Corner(components, k)
        invariant i > 0 ==> IsFirstLeast(run, corners, minCorner) && worstMin == run(corners[minCorner])
        invariant i > 0 ==> IsFirstGreatest(run, corners, maxCorner) && worstMax == run(corners[maxCorner])
        decreases numCorners - i
      {
        var values := CornerValues(i);
        var output := run(values);
        corners := corners + [values];
        if i == 0 || output < worstMin {
          worstMin, minCorner := output, i;
        }
        if i == 0 || output > worstMax {
          worstMax, maxCorner := output, i;
        }
        i := i + 1;
      }
      assert corners == Corners(components);
    }

    /**
      * The shift 1 << n needs n below the width of int. The margin is the greatest distance by which the worst
      * cases may still move outwards, minus infinity when there is none.
      */
    method Analyze(run: Values -> real) returns (r: Result)
      requires |components| <= 30
      ensures r.corners == Corners(components)
      ensures IsFirstLeast(run, r.corners, r.minCorner) && r.worstMin == run(r.corners[r.minCorner])
      ensures IsFirstGreatest(run, r.corners, r.maxCorner) && r.worstMax == run(r.corners[r.maxCorner])
      ensures r.meetsSpec <==> forall i :: 0 <= i < |r.corners| ==> Within(run(r.corners[i]), specMin, specMax)
      ensures r.meetsSpec <==> IsUpTo(0.0, r.margin)
      ensures r.nominal == 5.0
      ensures forall d: real :: IsUpTo(d, r.margin) <==> IsSlack(d, r.worstMin, r.worstMax, specMin, specMax)
      ensures r.violations == (if r.meetsSpec then 0 else 1) && r.recommendations == r.violations + 1
    {
      hide Corners;
      var worstMin, worstMax, minCorner, maxCorner, corners := RunCorners(run);
      var margin := Least(Minus(worstMin, specMin), LimitMinus(specMax, worstMax));
      var exceeds := !specMin.AtMost(Finite(worstMin)) || !Finite(worstMax).AtMost(specMax);
      r := Result(5.0, worstMin, worstMax, minCorner, maxCorner, margin, !exceeds, corners,
                  if exceeds then 1 else 0, if exceeds then 2 else 1);
    }
  }
}
