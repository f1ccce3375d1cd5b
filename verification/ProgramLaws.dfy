/** A whole program means the same before and after lowering, its calls running its own functions. */
module ProgramLaws {
  import opened FluxAst
  import opened Options
  import opened Ssa
  import opened Lowering
  import opened ModuleLaws
  import opened ComparisonLaws
  import opened Signatures
  import opened SignatureLaws

  /** The first definition of the name. */
  function DefinitionOf(fs: seq<Definition>, name: string): (r: Option<nat>)
    ensures r.Some? ==> r.value < |fs| && fs[r.value].proto.name == name
    ensures r.None? ==> forall k :: 0 <= k < |fs| ==> fs[k].proto.name != name
  {
    if fs == [] then None
    else if fs[0].proto.name == name then Some(0)
    else match DefinitionOf(fs[1..], name) case None => None case Some(k) => Some(k + 1)
  }

  /**
    * A call in the source program, n calls deep: a defined function is evaluated, any other is left to `s`.
    * A run that goes deeper, or gives a function the wrong number of arguments, ends without a world.
    */
  function SourceCall<W>(p: Program, s: Semantics<W>, n: nat, f: string, args: seq<Double>, w: Option<W>): (Double, Option<W>)
    requires NamesArguments(p)
    decreases n, 0
  {
    if w.None? then (ZERO_DOUBLE, None)
    else
      match DefinitionOf(p.functions, f)
      case None => var (d, w') := s.call(f, args, w.value); (d, Some(w'))
      case Some(k) =>
        var def := p.functions[k];
        if n == 0 || |args| != ArityOf(p, f) then (ZERO_DOUBLE, None)
        else
          match Eval(SourceMeaning(p, s, n - 1), VoidNames(p), def.body, ArgEnv(def.proto.params, args), w)
          case None => (ZERO_DOUBLE, None)
          case Some(o) => (if IsVoid(p, f) then ZERO_DOUBLE else o.value, o.world)
  }

  function SourceMeaning<W>(p: Program, s: Semantics<W>, n: nat): Semantics<Option<W>>
    requires NamesArguments(p)
    decreases n, 1
  {
    Semantics(s.negate, s.arith, s.order, s.unequal, s.fromBit, (f, args, w) => SourceCall(p, s, n, f, args, w))
  }

  /** The same call in the lowered module: a function with a body is run. */
  function LoweredCall<W>(m: seq<FuncOp>, s: Semantics<W>, n: nat, f: string, args: seq<Double>, w: Option<W>): (Double, Option<W>)
    decreases n, 0
  {
    if w.None? then (ZERO_DOUBLE, None)
    else if Find(m, f).None? || m[Find(m, f).value].body.None? then
      var (d, w') := s.call(f, args, w.value); (d, Some(w'))
    else
      var op := m[Find(m, f).value];
      if n == 0 || |args| != op.arity then (ZERO_DOUBLE, None)
      else
        match RunBody(LoweredMeaning(m, s, n - 1), op.body.value, args, w)
        case None => (ZERO_DOUBLE, None)
        case Some((result, w')) => (if result.Some? then result.value else ZERO_DOUBLE, w')
  }

  function LoweredMeaning<W>(m: seq<FuncOp>, s: Semantics<W>, n: nat): Semantics<Option<W>>
    decreases n, 1
  {
    Semantics(s.negate, s.arith, s.order, s.unequal, s.fromBit, (f, args, w) => LoweredCall(m, s, n, f, args, w))
  }

  // ----- Two meanings whose calls agree

  lemma {:induction false} RunsTheSame<W(!new)>(s: Semantics<W>, t: Semantics<W>, ops: seq<Op>, m: Machine<W>)
    requires SameMeaning(s, t)
    ensures Run(s, ops, m) == Run(t, ops, m)
  {
    if ops != [] {
      RunsTheSame(s, t, ops[..|ops| - 1], m);
    }
  }

  // ----- Which functions have bodies

  /** In the lowered module exactly the defined names have bodies, with the arguments and results of their signatures. */
  lemma DefinedHaveBodies(p: Program, f: string)
    requires WellPrototyped(p) && LowerModule(p).Some?
    ensures var m := LowerModule(p).value;
            && (DefinitionOf(p.functions, f).Some? <==> Find(m, f).Some? && m[Find(m, f).value].body.Some?)
            && (DefinitionOf(p.functions, f).Some? ==>
                  m[Find(m, f).value].arity == ArityOf(p, f) && (m[Find(m, f).value].hasResult <==> !IsVoid(p, f)))
  {
    BodiesAreDefined(p, f);
    ModuleSignatures(p, f);
    if DefinitionOf(p.functions, f).Some? {
      DefinedAreSigned(p, DefinitionOf(p.functions, f).value);
    }
    hide LowerModule, Find, DefinitionOf, BuiltinArity;
  }

  lemma DefinedAreSigned(p: Program, k: nat)
    requires k < |p.functions|
    ensures SignatureOf(p, p.functions[k].proto.name).Some?
  {
    assert ProtosOf(p.functions)[k] == p.functions[k].proto;
    hide BuiltinArity, FirstOf, ProtosOf;
  }

  lemma BodiesAreDefined(p: Program, f: string)
    requires WellPrototyped(p) && LowerModule(p).Some?
    ensures var m := LowerModule(p).value;
            DefinitionOf(p.functions, f).Some? <==> Find(m, f).Some? && m[Find(m, f).value].body.Some?
  {
    var symbols, m := Declarations(p).value, LowerModule(p).value;
    LoweredSymbols(p);
    EachIsDeclared(p);
    hide LowerModule, Declarations;
    if Find(symbols, f).Some? {
      FindKept(symbols, m, f);
    } else if Find(m, f).Some? {
      NewSymbolIsLater(symbols, m, f);
    }
  }

  /** The program has no !=, nothing is unordered, or != is read as the pass emits it: false of unordered operands. */
  ghost predicate IsReadAlike<W>(p: Program, s: Semantics<W>) {
    !s.unequal || AllOrdered(s) || forall k :: 0 <= k < |p.functions| ==> HasNoUnequal(p.functions[k].body)
  }

  /**
    * One definition: the body of its symbol returns what evaluating it gives, when the calls of the two agree; nothing
    * when its prototype is void.
    */
  lemma DefinitionIsPreserved<W(!new)>(p: Program, s: Semantics<Option<W>>, t: Semantics<Option<W>>, k: nat,
                                       args: seq<Double>, w: Option<W>)
    requires WellPrototyped(p) && LowerModule(p).Some? && k < |p.functions| && SameMeaning(s, t) && IsReadAlike(p, s)
    requires |args| == ArityOf(p, p.functions[k].proto.name)
    ensures var m, f := LowerModule(p).value, p.functions[k];
            var i := Find(m, f.proto.name);
            && |args| <= |f.proto.params| && i.Some? && m[i.value].body.Some?
            && var v := Eval(s, VoidNames(p), f.body, ArgEnv(f.proto.params, args), w);
            && v.Some?
            && RunBody(t, m[i.value].body.value, args, w)
               == Some((if IsVoid(p, f.proto.name) then None else Some(v.value.value), v.value.world))
  {
    var name, symbols, m := p.functions[k].proto.name, Declarations(p).value, LowerModule(p).value;
    EachIsDeclared(p);
    assert p.functions[k] in p.functions;
    var i := Find(symbols, name).value;
    LoweredSymbols(p);
    FindKept(symbols, m, name);
    SymbolsSayTheSame(p);
    ProgramIsDeclared(p, name);
    assert ModuleLaws.Arity(symbols, name) == ArityOf(p, name);
    hide LowerModule, Declarations, Eval, Find, SignatureOf, RunBody, ArityOf;
    var ordered, f := s.(unequal := false), p.functions[k];
    ModuleMeans(p, k, i, ordered, args, w);
    ReadOrdered(p, s, ordered, k, args, w);
    SameButReading(s, t);
    RunsBodyTheSame(ordered, t, m[i].body.value, args, w);
  }

  lemma ReadOrdered<W(!new)>(p: Program, s: Semantics<Option<W>>, ordered: Semantics<Option<W>>, k: nat,
                             args: seq<Double>, w: Option<W>)
    requires k < |p.functions| && |args| <= |p.functions[k].proto.params|
    requires ordered == s.(unequal := false) && IsReadAlike(p, s)
    ensures var f := p.functions[k];
            Eval(s, VoidNames(p), f.body, ArgEnv(f.proto.params, args), w)
            == Eval(ordered, VoidNames(p), f.body, ArgEnv(f.proto.params, args), w)
  {
    hide Eval;
    var f := p.functions[k];
    if s.unequal {
      ReadingsAgree(s, ordered, VoidNames(p), f.body, ArgEnv(f.proto.params, args), w);
    } else {
      assert s == ordered;
    }
  }

  lemma RunsBodyTheSame<W(!new)>(s: Semantics<W>, t: Semantics<W>, b: Body, args: seq<Double>, w: W)
    requires SameMeaning(s, t)
    ensures RunBody(s, b, args, w) == RunBody(t, b, args, w)
  {
    hide SameMeaning;
    RunsTheSame(s, t, b.ops, Machine(ArgRegisters(args), w));
  }

  lemma SameButReading<W(!new)>(s: Semantics<W>, t: Semantics<W>)
    requires SameMeaning(s, t)
    ensures SameMeaning(s.(unequal := false), t)
  {
  }

  lemma ReadAlikeInside<W>(p: Program, s: Semantics<W>, n: nat)
    requires NamesArguments(p) && IsReadAlike(p, s)
    ensures IsReadAlike(p, SourceMeaning(p, s, n))
  {
    hide NamesArguments, SourceCall;
  }

  /** A program that lowers has a name for every argument. */
  lemma LoweredNamesArguments(p: Program)
    requires WellPrototyped(p) && LowerModule(p).Some?
    ensures NamesArguments(p)
  {
    WellPrototypedMeans(p);
    DeclaringFailsExactly(p);
  }

  lemma CallIsPreserved<W(!new)>(p: Program, s: Semantics<W>, n: nat, f: string, args: seq<Double>, w: Option<W>)
    requires WellPrototyped(p) && NamesArguments(p) && LowerModule(p).Some? && IsReadAlike(p, s)
    requires n > 0 ==> SameMeaning(SourceMeaning(p, s, n - 1), LoweredMeaning(LowerModule(p).value, s, n - 1))
    ensures SourceCall(p, s, n, f, args, w) == LoweredCall(LowerModule(p).value, s, n, f, args, w)
  {
    DefinedHaveBodies(p, f);
    hide LowerModule, Declarations, Eval, RunBody, DefinitionOf, Find, WellPrototyped, SameMeaning, IsReadAlike, NamesArguments,
         VoidNames, IsVoid, ArityOf;
    var m := LowerModule(p).value;
    if w.Some? && DefinitionOf(p.functions, f).Some? && n > 0 && |args| == ArityOf(p, f) {
      ReadAlikeInside(p, s, n - 1);
      DefinitionIsPreserved(p, SourceMeaning(p, s, n - 1), LoweredMeaning(m, s, n - 1),
                            DefinitionOf(p.functions, f).value, args, w);
    }
  }

  /**
    * For every program that lowers, every depth, every meaning of the arithmetic and of the functions the program does
    * not define: calling any function of the lowered module gives the result, the effects and the failures of calling
    * it in the source. With the code generator's reading of != the program must have none, or nothing be unordered.
    */
  lemma {:induction false} ProgramIsPreserved<W(!new)>(p: Program, s: Semantics<W>, n: nat, f: string, args: seq<Double>, w: Option<W>)
    requires WellPrototyped(p) && NamesArguments(p) && LowerModule(p).Some? && IsReadAlike(p, s)
    ensures SourceCall(p, s, n, f, args, w) == LoweredCall(LowerModule(p).value, s, n, f, args, w)
    decreases n
  {
    hide LowerModule, WellPrototyped, NamesArguments;
    if n > 0 {
      var source, lowered := SourceMeaning(p, s, n - 1), LoweredMeaning(LowerModule(p).value, s, n - 1);
      hide SourceCall, LoweredCall;
      forall g, xs, v
        ensures source.call(g, xs, v) == lowered.call(g, xs, v)
      {
        ProgramIsPreserved(p, s, n - 1, g, xs, v);
      }
    }
    CallIsPreserved(p, s, n, f, args, w);
  }
}
