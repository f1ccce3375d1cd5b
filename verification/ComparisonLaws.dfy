/** When the lowered comparisons mean what the code generator's do. */
module ComparisonLaws {
  import opened FluxAst
  import opened Ssa
  import opened Lowering

  /** The code generator takes != of unordered operands for true: the two agree on everything else, and only there. */
  lemma ComparisonsAgreeExactly(c: CompareOp, o: Order)
    ensures Holds(PredicateOf(c), o) == Meant(c, o, true) <==> !(c == NotEqual && o == Unordered)
  {
  }

  predicate HasNoUnequal(e: Expr)
  {
    match e
    case Unary(_, a) => HasNoUnequal(a)
    case Binary(op, a, b) => op != Compare(NotEqual) && HasNoUnequal(a) && HasNoUnequal(b)
    case Call(_, args) => forall a :: a in args ==> HasNoUnequal(a)
    case Let(_, a) => HasNoUnequal(a)
    case LetIn(_, a, b) => HasNoUnequal(a) && HasNoUnequal(b)
    case Block(es) => forall a :: a in es ==> HasNoUnequal(a)
    case _ => true
  }

  ghost predicate AllOrdered<W>(s: Semantics<W>) {
    forall l, r :: s.order(l, r) != Unordered
  }

  /** Two meanings that differ at most in how != is read of unordered operands. */
  ghost predicate SameMeaning<W(!new)>(s: Semantics<W>, t: Semantics<W>) {
    && s.negate == t.negate && s.arith == t.arith && s.order == t.order && s.fromBit == t.fromBit
    && forall f, args, w :: s.call(f, args, w) == t.call(f, args, w)
  }

  lemma OperatorReadsAlike<W(!new)>(s: Semantics<W>, t: Semantics<W>, op: BinaryOp, l: Double, r: Double, env: Env, w: W)
    requires SameMeaning(s, t) && (op != Compare(NotEqual) || AllOrdered(s))
    ensures Operate(t, op, l, r, env, w) == Operate(s, op, l, r, env, w)
  {
  }

  lemma CallReadsAlike<W(!new)>(s: Semantics<W>, t: Semantics<W>, f: string, args: seq<Double>, w: W)
    requires SameMeaning(s, t)
    ensures s.call(f, args, w) == t.call(f, args, w) && s.negate == t.negate
  {
  }

  /** The reading of != makes no difference to an expression without !=, nor to any where nothing is unordered. */
  lemma {:induction false} ReadingsAgree<W(!new)>(s: Semantics<W>, t: Semantics<W>, voids: set<string>, e: Expr, env: Env, w: W)
    requires SameMeaning(s, t) && (HasNoUnequal(e) || AllOrdered(s))
    ensures Eval(t, voids, e, env, w) == Eval(s, voids, e, env, w)
    decreases e, 1, 0
  {
    hide SameMeaning, Operate, AllOrdered;
    match e
    case Unary(_, a) =>
      ReadingsAgree(s, t, voids, a, env, w);
      CallReadsAlike(s, t, "", [], w);
    case Binary(op, a, b) =>
      ReadingsAgree(s, t, voids, a, env, w);
      var l := Eval(s, voids, a, env, w);
      if l.Some? {
        ReadingsAgree(s, t, voids, b, l.value.env, l.value.world);
        var r := Eval(s, voids, b, l.value.env, l.value.world);
        if r.Some? {
          OperatorReadsAlike(s, t, op, l.value.value, r.value.value, r.value.env, r.value.world);
        }
      }
    case Call(f, args) =>
      ReadingsAgreeArgs(s, t, voids, args, |args|, env, w);
      var r := EvalArgs(s, voids, args, |args|, env, w);
      if r.Some? {
        CallReadsAlike(s, t, f, r.value.value, r.value.world);
      }
    case Let(_, a) => ReadingsAgree(s, t, voids, a, env, w);
    case LetIn(x, a, b) =>
      ReadingsAgree(s, t, voids, a, env, w);
      var r := Eval(s, voids, a, env, w);
      if r.Some? {
        ReadingsAgree(s, t, voids, b, r.value.env[x := r.value.value], r.value.world);
      }
    case Block(es) => ReadingsAgreeStatements(s, t, voids, es, |es|, env, w);
    case _ =>
  }

  lemma {:induction false} ReadingsAgreeArgs<W(!new)>(s: Semantics<W>, t: Semantics<W>, voids: set<string>, args: seq<Expr>,
                                                      count: nat, env: Env, w: W)
    requires count <= |args| && SameMeaning(s, t) && ((forall a :: a in args ==> HasNoUnequal(a)) || AllOrdered(s))
    ensures EvalArgs(t, voids, args, count, env, w) == EvalArgs(s, voids, args, count, env, w)
    decreases args, 0, count
  {
    if count > 0 {
      ReadingsAgreeArgs(s, t, voids, args, count - 1, env, w);
      var r := EvalArgs(s, voids, args, count - 1, env, w);
      if r.Some? {
        ReadingsAgree(s, t, voids, args[count - 1], r.value.env, r.value.world);
      }
    }
  }

  lemma {:induction false} ReadingsAgreeStatements<W(!new)>(s: Semantics<W>, t: Semantics<W>, voids: set<string>, es: seq<Expr>,
                                                            count: nat, env: Env, w: W)
    requires count <= |es| && SameMeaning(s, t) && ((forall a :: a in es ==> HasNoUnequal(a)) || AllOrdered(s))
    ensures EvalStatements(t, voids, es, count, env, w) == EvalStatements(s, voids, es, count, env, w)
    decreases es, 0, count
  {
    if count > 0 {
      ReadingsAgreeStatements(s, t, voids, es, count - 1, env, w);
      var r := EvalStatements(s, voids, es, count - 1, env, w);
      if r.Some? {
        ReadingsAgree(s, t, voids, es[count - 1], r.value.env, r.value.world);
      }
    }
  }

  /** The expression a != b. */
  const UNEQUAL := Binary(Compare(NotEqual), Variable("a"), Variable("b"))

  /** One comparison tells the readings apart exactly when its operands are unordered and the two bits differ as doubles. */
  lemma UnequalTellsApart<W>(s: Semantics<W>, voids: set<string>, l: Double, r: Double, w: W)
    ensures var env := map["a" := l, "b" := r];
            Eval(s.(unequal := true), voids, UNEQUAL, env, w) == Eval(s.(unequal := false), voids, UNEQUAL, env, w)
            <==> s.order(l, r) != Unordered || s.fromBit(true) == s.fromBit(false)
  {
  }

  /**
    * The reading of != makes no difference to any expression, anywhere, exactly when no two doubles are unordered
    * (or both bits become the same double).
    */
  lemma ReadingsAgreeExactly<W(!new)>(s: Semantics<W>, voids: set<string>, w: W)
    requires s.fromBit(true) != s.fromBit(false)
    ensures (forall e, env, v :: Eval(s.(unequal := true), voids, e, env, v) == Eval(s.(unequal := false), voids, e, env, v))
            <==> AllOrdered(s)
  {
    if AllOrdered(s) {
      forall e, env, v
        ensures Eval(s.(unequal := true), voids, e, env, v) == Eval(s.(unequal := false), voids, e, env, v)
      {
        ReadingsAgree(s.(unequal := true), s.(unequal := false), voids, e, env, v);
      }
    } else {
      var l, r :| s.order(l, r) == Unordered;
      UnequalTellsApart(s, voids, l, r, w);
    }
  }
}
