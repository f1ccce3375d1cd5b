/** The declared symbols are exactly what the prototypes say. */
module SignatureLaws {
  import opened FluxAst
  import opened Options
  import opened Signatures
  import opened Ssa
  import opened Lowering
  import opened LoweringLaws
  import opened ModuleLaws

  /** The symbol of a name, when it is declared as the signature says. */
  predicate IsDeclaredAs(symbols: seq<FuncOp>, name: string, g: Option<Signature>) {
    && (Find(symbols, name).Some? <==> g.Some?)
    && (g.Some? ==>
          var f := symbols[Find(symbols, name).value];
          f.arity == g.value.arity && f.hasResult == g.value.hasResult && f.body.None?)
  }

  // ----- Builtins

  lemma TableIsRight(i: nat)
    requires i < |BUILTINS|
    ensures BuiltinArity(BUILTINS[i].0) == Some(BUILTINS[i].1)
  {
  }

  lemma TableIsComplete(name: string)
    requires BuiltinArity(name).Some?
    ensures exists i :: 0 <= i < |BUILTINS| && BUILTINS[i].0 == name
  {
    assert BUILTINS[0].0 == "sin" && BUILTINS[1].0 == "cos" && BUILTINS[2].0 == "tan" && BUILTINS[3].0 == "asin";
    assert BUILTINS[4].0 == "acos" && BUILTINS[5].0 == "atan" && BUILTINS[6].0 == "atan2" && BUILTINS[7].0 == "sqrt";
    assert BUILTINS[8].0 == "exp" && BUILTINS[9].0 == "log" && BUILTINS[10].0 == "log10" && BUILTINS[11].0 == "abs";
    assert BUILTINS[12].0 == "floor" && BUILTINS[13].0 == "ceil" && BUILTINS[14].0 == "round" && BUILTINS[15].0 == "pow";
    assert BUILTINS[16].0 == "pi" && BUILTINS[17].0 == "e";
  }

  /** The first `count` builtins. */
  ghost predicate IsAmong(count: nat, name: string)
    requires count <= |BUILTINS|
  {
    exists i :: 0 <= i < count && BUILTINS[i].0 == name
  }

  lemma DeclareAdds(symbols: seq<FuncOp>, name: string, arity: nat, other: string)
    ensures var after := Declare(symbols, name, arity).1;
            if Find(symbols, other).Some? || other != name then
              Find(after, other) == Find(symbols, other)
              && (Find(symbols, other).Some? ==> after[Find(after, other).value] == symbols[Find(symbols, other).value])
            else Find(after, other).Some? && after[Find(after, other).value] == FuncOp(name, arity, true, None)
  {
    if Find(symbols, name).None? {
      FindFromAppended(symbols, FuncOp(name, arity, true, None), other, 0);
    }
  }

  lemma {:induction false} BuiltinsAreDeclared(count: nat, name: string)
    requires count <= |BUILTINS|
    ensures IsDeclaredAs(DeclareBuiltins([], count), name,
                         if IsAmong(count, name) then Some(Signature(BuiltinArity(name).value, true)) else None)
    ensures IsAmong(count, name) ==> BuiltinArity(name).Some?
  {
    if count > 0 {
      BuiltinsAreDeclared(count - 1, name);
      TableIsRight(count - 1);
      var b := BUILTINS[count - 1];
      DeclareAdds(DeclareBuiltins([], count - 1), b.0, b.1, name);
      hide BUILTINS, BuiltinArity, Find, Declare;
      assert IsAmong(count, name) <==> IsAmong(count - 1, name) || b.0 == name by {
        OneMoreBuiltin(count, name);
      }
    } else {
      assert Find([], name).None?;
    }
  }

  lemma OneMoreBuiltin(count: nat, name: string)
    requires 0 < count <= |BUILTINS|
    ensures IsAmong(count, name) <==> IsAmong(count - 1, name) || BUILTINS[count - 1].0 == name
  {
  }

  lemma AllBuiltinsAreDeclared(name: string)
    ensures IsDeclaredAs(DeclareBuiltins([], |BUILTINS|), name,
                         if BuiltinArity(name).Some? then Some(Signature(BuiltinArity(name).value, true)) else None)
  {
    hide BuiltinArity, Find, Declare, DeclareBuiltins, IsDeclaredAs;
    BuiltinsAreDeclared(|BUILTINS|, name);
    if BuiltinArity(name).Some? {
      TableIsComplete(name);
    }
  }

  // ----- Prototypes

  lemma {:induction false} FirstAppended(a: seq<Prototype>, b: seq<Prototype>, name: string)
    ensures FirstOf(a + b, name) == if FirstOf(a, name).Some? then FirstOf(a, name) else FirstOf(b, name)
  {
    if a == [] {
      assert a + b == b;
    } else {
      FirstAppended(a[1..], b, name);
      assert (a + b)[1..] == a[1..] + b;
    }
  }

  lemma FirstOfOneMore(protos: seq<Prototype>, count: nat, name: string)
    requires 0 < count <= |protos|
    ensures FirstOf(protos[..count], name)
         == if FirstOf(protos[..count - 1], name).Some? then FirstOf(protos[..count - 1], name)
            else if protos[count - 1].name == name then Some(protos[count - 1]) else None
  {
    assert protos[..count] == protos[..count - 1] + [protos[count - 1]];
    FirstAppended(protos[..count - 1], [protos[count - 1]], name);
    var one := [protos[count - 1]];
    assert one[1..] == [];
    assert FirstOf(one, name) == if one[0].name == name then Some(one[0]) else None;
  }

  /** The symbol of a name after the prototypes: the earlier one, or the one of the first prototype. */
  predicate IsDeclaredBy(symbols: seq<FuncOp>, after: seq<FuncOp>, name: string, first: Option<Prototype>) {
    if Find(symbols, name).Some? then
      Find(after, name) == Find(symbols, name) && after[Find(after, name).value] == symbols[Find(symbols, name).value]
    else
      && (Find(after, name).Some? <==> first.Some?)
      && (first.Some? ==>
            after[Find(after, name).value] == FuncOp(name, |first.value.params|, first.value.result == DoubleType, None))
  }

  lemma PrototypeDeclares(symbols: seq<FuncOp>, before: seq<FuncOp>, proto: Prototype, name: string, first: Option<Prototype>)
    requires DeclarePrototype(before, proto).Some? && IsDeclaredBy(symbols, before, name, first)
    ensures IsDeclaredBy(symbols, DeclarePrototype(before, proto).value, name,
                         if first.Some? then first else if proto.name == name then Some(proto) else None)
  {
    if Find(before, proto.name).None? {
      FindFromAppended(before, FuncOp(proto.name, |proto.params|, proto.result == DoubleType, None), name, 0);
    }
  }

  lemma {:induction false} PrototypesDeclare(protos: seq<Prototype>, count: nat, symbols: seq<FuncOp>, name: string)
    requires count <= |protos| && DeclareAll(protos, count, symbols).Some?
    ensures IsDeclaredBy(symbols, DeclareAll(protos, count, symbols).value, name, FirstOf(protos[..count], name))
  {
    if count > 0 {
      PrototypesDeclare(protos, count - 1, symbols, name);
      FirstOfOneMore(protos, count, name);
      hide IsDeclaredBy, DeclarePrototype, FirstOf;
      PrototypeDeclares(symbols, DeclareAll(protos, count - 1, symbols).value, protos[count - 1], name,
                        FirstOf(protos[..count - 1], name));
    }
  }

  lemma PrototypesAre(p: Program)
    ensures Prototypes(p) == p.externs + ProtosOf(p.functions)
  {
    hide ProtosOf;
  }

  lemma FirstInProgram(p: Program, name: string)
    ensures BuiltinArity(name).None? ==> PrototypeOf(p, name) == FirstOf(Prototypes(p), name)
  {
    PrototypesAre(p);
    hide BuiltinArity, Prototypes, ProtosOf, FirstOf;
    FirstAppended(p.externs, ProtosOf(p.functions), name);
  }

  /** Every name is declared exactly as the program's prototypes say. */
  lemma ProgramIsDeclared(p: Program, name: string)
    requires Declarations(p).Some?
    ensures IsDeclaredAs(Declarations(p).value, name, SignatureOf(p, name))
  {
    AllBuiltinsAreDeclared(name);
    FirstInProgram(p, name);
    var protos := Prototypes(p);
    assert protos[..|protos|] == protos;
    hide BuiltinArity, Find, DeclareBuiltins, FirstOf, Prototypes;
    PrototypesDeclare(protos, |protos|, DeclareBuiltins([], |BUILTINS|), name);
  }

  // ----- The static rule, on symbols and on prototypes

  lemma {:induction false} FirstIs(protos: seq<Prototype>, k: nat)
    requires k < |protos| && forall j :: 0 <= j < k ==> protos[j].name != protos[k].name
    ensures FirstOf(protos, protos[k].name) == Some(protos[k])
  {
    if k > 0 {
      FirstIs(protos[1..], k - 1);
    }
  }

  lemma {:induction false} FirstAt(protos: seq<Prototype>, name: string) returns (k: nat)
    requires FirstOf(protos, name).Some?
    ensures k < |protos| && protos[k] == FirstOf(protos, name).value
    ensures protos[k].name == name && forall j :: 0 <= j < k ==> protos[j].name != name
  {
    if protos[0].name == name {
      k := 0;
    } else {
      var i := FirstAt(protos[1..], name);
      k := i + 1;
    }
  }

  lemma BuiltinsAreFound(name: string)
    ensures Find(DeclareBuiltins([], |BUILTINS|), name).Some? <==> BuiltinArity(name).Some?
  {
    AllBuiltinsAreDeclared(name);
    hide Find, DeclareBuiltins, BuiltinArity;
  }

  /** Declaring fails exactly when a prototype that counts takes an argument of no type. */
  lemma DeclaringFailsExactly(p: Program)
    ensures Declarations(p).None? <==> TakesVoid(p)
  {
    var protos := Prototypes(p);
    DeclarationsFailExactly(protos, |protos|, DeclareBuiltins([], |BUILTINS|));
    hide BuiltinArity, Find, DeclareBuiltins, FirstOf, Prototypes;
    if k :| 0 <= k < |protos| && IsRefused(protos, k, DeclareBuiltins([], |BUILTINS|)) {
      var name := protos[k].name;
      BuiltinsAreFound(name);
      FirstInProgram(p, name);
      FirstIs(protos, k);
      assert TakesVoidBy(p, name);
    }
    if name :| TakesVoidBy(p, name) {
      FirstInProgram(p, name);
      assert BuiltinArity(name).None?;
      BuiltinsAreFound(name);
      var k := FirstAt(protos, name);
      assert IsRefused(protos, k, DeclareBuiltins([], |BUILTINS|));
    }
  }

  lemma {:induction false} ScopeNames(params: seq<Param>, arity: nat)
    requires arity <= |params|
    ensures ParamScope(params, arity).Keys == set i | 0 <= i < arity :: params[i].name
  {
    if arity > 0 {
      ScopeNames(params, arity - 1);
    }
  }

  /** What the symbols say of a program is what its prototypes say. */
  lemma SymbolsSayTheSame(p: Program)
    requires Declarations(p).Some?
    ensures Voids(Declarations(p).value) == VoidNames(p)
    ensures forall name :: ModuleLaws.Arity(Declarations(p).value, name) == ArityOf(p, name)
  {
    var symbols := Declarations(p).value;
    forall name
      ensures name in Voids(symbols) <==> IsVoid(p, name)
      ensures ModuleLaws.Arity(symbols, name) == ArityOf(p, name)
    {
      ProgramIsDeclared(p, name);
      hide Declarations, BuiltinArity;
      if IsVoid(p, name) {
        assert symbols[Find(symbols, name).value].name == name;
      }
    }
  }

  /** A program is well prototyped exactly when it names its arguments, if it can be declared at all. */
  lemma WellPrototypedMeans(p: Program)
    ensures WellPrototyped(p) <==> TakesVoid(p) || NamesArguments(p)
  {
    DeclaringFailsExactly(p);
    if Declarations(p).Some? {
      EachIsDeclared(p);
      SymbolsSayTheSame(p);
      hide Declarations, ArityOf, Find;
      var symbols := Declarations(p).value;
      forall k | 0 <= k < |p.functions|
        ensures Fits(symbols, p.functions[k]) <==> ArityOf(p, p.functions[k].proto.name) <= |p.functions[k].proto.params|
      {
        assert p.functions[k] in p.functions;
        assert ModuleLaws.Arity(symbols, p.functions[k].proto.name) == ArityOf(p, p.functions[k].proto.name);
      }
      forall f | f in p.functions && NamesArguments(p)
        ensures Fits(symbols, f)
      {
        var k :| 0 <= k < |p.functions| && p.functions[k] == f;
      }
    }
  }

  /** The scope rule of one definition, on symbols and on prototypes. */
  lemma RulesAgree(p: Program, k: nat)
    requires Declarations(p).Some? && NamesArguments(p) && k < |p.functions|
    ensures Fits(Declarations(p).value, p.functions[k])
    ensures InScope(Declarations(p).value, Voids(Declarations(p).value), p.functions[k])
       <==> Scope(VoidNames(p), p.functions[k].body, ArgumentNames(p, p.functions[k])).Some?
  {
    var symbols, f := Declarations(p).value, p.functions[k];
    SymbolsSayTheSame(p);
    hide Declarations, ArityOf;
    assert ModuleLaws.Arity(symbols, f.proto.name) == ArityOf(p, f.proto.name);
    ScopeNames(f.proto.params, ArityOf(p, f.proto.name));
    assert ArgumentNames(p, f) == ParamScope(f.proto.params, ArityOf(p, f.proto.name)).Keys;
    hide Scope, VoidNames;
  }

  /** Definition k is the first of its name and obeys the scope rule. */
  predicate Obeys(p: Program, k: nat)
    requires k < |p.functions|
  {
    IsNew(p.functions, k) && Scope(VoidNames(p), p.functions[k].body, ArgumentNames(p, p.functions[k])).Some?
  }

  lemma AcceptedMeans(p: Program, k: nat)
    requires Declarations(p).Some? && NamesArguments(p) && k < |p.functions|
    ensures Accepted(p.functions, k, Declarations(p).value, Voids(Declarations(p).value)) <==> Obeys(p, k)
  {
    RulesAgree(p, k);
    hide Declarations, NamesArguments, Scope, Voids, VoidNames, ArgumentNames, InScope, Fits;
  }

  lemma LowerableMeans(p: Program)
    ensures IsLowerable(p) <==> !TakesVoid(p) && forall k :: 0 <= k < |p.functions| ==> Obeys(p, k)
  {
    hide TakesVoid, Scope, VoidNames, ArgumentNames;
    if forall k :: 0 <= k < |p.functions| ==> Obeys(p, k) {
      forall i, j | 0 <= i < j < |p.functions|
        ensures p.functions[i].proto.name != p.functions[j].proto.name
      {
        assert Obeys(p, j);
      }
      forall k | 0 <= k < |p.functions|
        ensures Scope(VoidNames(p), p.functions[k].body, ArgumentNames(p, p.functions[k])).Some?
      {
        assert Obeys(p, k);
      }
    }
  }

  /** The whole pass succeeds on exactly the programs that their own prototypes and bodies allow. */
  lemma ModuleLowersExactly(p: Program)
    requires WellPrototyped(p)
    ensures LowerModule(p).Some? <==> IsLowerable(p)
  {
    ModuleIsAccepted(p);
    DeclaringFailsExactly(p);
    WellPrototypedMeans(p);
    LowerableMeans(p);
    hide LowerModule, Declarations, TakesVoid, WellPrototyped, IsLowerable;
    if Declarations(p).Some? {
      hide NamesArguments, Voids, Obeys, Accepted;
      forall k | 0 <= k < |p.functions|
        ensures Accepted(p.functions, k, Declarations(p).value, Voids(Declarations(p).value)) <==> Obeys(p, k)
      {
        AcceptedMeans(p, k);
      }
    }
  }

  /** What lowering leaves of the declared symbols. */
  lemma LoweredSymbols(p: Program)
    requires WellPrototyped(p) && LowerModule(p).Some?
    ensures var symbols := Declarations(p).value;
            Progress(p.functions, |p.functions|, EMPTY_STATE.(symbols := symbols), Voids(symbols),
                     EMPTY_STATE.(symbols := LowerModule(p).value))
  {
    var symbols := Declarations(p).value;
    ProgramIsReady(p);
    EachIsDeclared(p);
    hide Declarations, Fits, InScope, LowerFunctions, Declares;
    FunctionsLowerExactly(p.functions, |p.functions|, EMPTY_STATE.(symbols := symbols), Voids(symbols));
  }

  lemma NewSymbolIsLater(before: seq<FuncOp>, after: seq<FuncOp>, name: string)
    requires SameSignatures(before, after) && Find(before, name).None? && Find(after, name).Some?
    ensures Find(after, name).value >= |before|
  {
    forall k | 0 <= k < |before|
      ensures after[k].name != name
    {
      assert before[k].name == after[k].name;
    }
    hide SameSignatures;
  }

  /**
    * In a lowered module every name of the program has the signature of its first prototype, or of its builtin; a name
    * that is only called takes the arguments of a call and returns a value.
    */
  lemma ModuleSignatures(p: Program, name: string)
    requires WellPrototyped(p) && LowerModule(p).Some?
    ensures var m, g := LowerModule(p).value, SignatureOf(p, name);
            if g.Some? then
              Find(m, name).Some? && m[Find(m, name).value].arity == g.value.arity
              && m[Find(m, name).value].hasResult == g.value.hasResult
            else Find(m, name).Some? ==> m[Find(m, name).value].hasResult && m[Find(m, name).value].body.None?
  {
    LoweredSymbols(p);
    ProgramIsDeclared(p, name);
    hide LowerModule, Declarations, SignatureOf;
    var symbols, m := Declarations(p).value, LowerModule(p).value;
    if Find(symbols, name).Some? {
      FindKept(symbols, m, name);
    } else if Find(m, name).Some? {
      NewSymbolIsLater(symbols, m, name);
    }
  }
}
