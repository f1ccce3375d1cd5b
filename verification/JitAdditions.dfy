/** What adding a module does to each of its functions, told by linkage and body alone. */
module JitAdditions {
  import opened Options
  import opened Jit
  import opened JitLaws
  import opened JitRuns

  // ----- Anonymous names

  /** A name is anonymous when it contains "anon_expr". */
  lemma AnonymousNames(name: string)
    ensures IsAnon(name) <==> exists a, b :: name == a + "anon_expr" + b
  {
    if i :| 0 <= i <= |name| - |ANON| && OccursAt(name, i) {
      assert name == name[..i] + "anon_expr" + name[i + |ANON|..];
    }
    if a, b :| name == a + "anon_expr" + b {
      assert |"anon_expr"| == 9 && name[|a|..|a| + 9] == "anon_expr";
      assert OccursAt(name, |a|);
    }
  }

  // ----- What an accepted module does to a name

  /** Everything the JIT holds under one name. */
  ghost predicate IsKnownAs(st: State, name: string, code: Option<int>, isSymbol: bool, count: Option<nat>, saved: Option<int>) {
    && (name in st.linked <==> code.Some?) && (code.Some? ==> st.linked[name] == code.value)
    && (name in st.moduleSymbols <==> isSymbol)
    && (name in st.callCounts <==> count.Some?) && (count.Some? ==> st.callCounts[name] == count.value)
    && FirstSaved(st.savedModules, name) == saved
  }

  /** The state holds the same under the name as another. */
  ghost predicate IsUnchangedFor(st: State, after: State, name: string) {
    && (name in after.linked <==> name in st.linked) && (name in st.linked ==> after.linked[name] == st.linked[name])
    && (name in after.moduleSymbols <==> name in st.moduleSymbols)
    && (name in after.callCounts <==> name in st.callCounts)
    && (name in st.callCounts ==> after.callCounts[name] == st.callCounts[name])
    && FirstSaved(after.savedModules, name) == FirstSaved(st.savedModules, name)
  }

  lemma NothingDone(st: State, fns: seq<Fn>, name: string)
    requires DistinctFns(fns)
    requires forall i :: 0 <= i < |fns| && fns[i].name == name ==> !IsDefinition(Internalized(fns[i], st.moduleSymbols))
    ensures IsUnchangedFor(st, AddModule(st, fns, true, true), name)
  {
    var own := InternalizeAll(fns, st.moduleSymbols);
    hide IsAnon;
    InternalizedNames(fns, st.moduleSymbols);
    forall i | 0 <= i < |own| && IsDefinition(own[i])
      ensures own[i].name != name
    {
      assert own[i] == Internalized(fns[i], st.moduleSymbols);
    }
    LinkEachExactly(st.linked, own, |own|);
    SaveEachExactly(own, |own|);
    UserNamesExactly(own, |own|);
    ZeroEachExactly(st.callCounts, UserNames(own, |own|));
    FirstSavedAppended(st.savedModules, SaveEach(own, |own|), name);
    hide InternalizeAll, LinkEach, SaveEach, UserNames, ZeroEach, FirstSaved;
  }

  /** A function that is only declared, private, nameless or already known leaves everything under its name alone. */
  lemma DeclarationsAddNothing(st: State, fns: seq<Fn>, i: nat)
    requires DistinctFns(fns) && i < |fns|
    requires || fns[i].isDeclaration || !fns[i].isExternal || fns[i].name == ""
             || (fns[i].name in st.moduleSymbols && !IsAnon(fns[i].name))
    ensures IsUnchangedFor(st, AddModule(st, fns, true, true), fns[i].name)
  {
    hide IsAnon;
    NothingDone(st, fns, fns[i].name);
  }

  /** A name the module does not mention is left alone too. */
  lemma OtherNamesAreLeft(st: State, fns: seq<Fn>, name: string)
    requires DistinctFns(fns) && forall i :: 0 <= i < |fns| ==> fns[i].name != name
    ensures IsUnchangedFor(st, AddModule(st, fns, true, true), name)
  {
    hide IsAnon;
    NothingDone(st, fns, name);
  }

  /** An external function with a body and a new name is linked to its code, recorded, counted from 0 and saved. */
  lemma DefinitionsAreAdded(st: State, fns: seq<Fn>, i: nat)
    requires DistinctFns(fns) && i < |fns|
    requires !fns[i].isDeclaration && fns[i].isExternal && fns[i].name != "" && !IsAnon(fns[i].name)
    requires fns[i].name !in st.moduleSymbols
    ensures IsKnownAs(AddModule(st, fns, true, true), fns[i].name, Some(fns[i].code), true, Some(0),
                      if FirstSaved(st.savedModules, fns[i].name).Some? then FirstSaved(st.savedModules, fns[i].name)
                      else Some(fns[i].code))
  {
    hide IsAnon;
    var own := InternalizeAll(fns, st.moduleSymbols);
    InternalizedNames(fns, st.moduleSymbols);
    assert own[i] == fns[i] && IsUserDefinition(own[i]);
    LinkEachExactly(st.linked, own, |own|);
    SaveEachExactly(own, |own|);
    UserNamesExactly(own, |own|);
    ZeroEachExactly(st.callCounts, UserNames(own, |own|));
    FirstSavedAppended(st.savedModules, SaveEach(own, |own|), fns[i].name);
    hide LinkEach, SaveEach, UserNames, ZeroEach, FirstSaved;
  }

  /** An anonymous expression with a body is linked to its code, and neither recorded nor counted nor saved. */
  lemma AnonymousIsOnlyLinked(st: State, fns: seq<Fn>, i: nat)
    requires DistinctFns(fns) && i < |fns|
    requires !fns[i].isDeclaration && fns[i].isExternal && fns[i].name != "" && IsAnon(fns[i].name)
    ensures var after, name := AddModule(st, fns, true, true), fns[i].name;
            && name in after.linked && after.linked[name] == fns[i].code
            && (name in after.moduleSymbols <==> name in st.moduleSymbols)
            && (name in after.callCounts <==> name in st.callCounts)
            && FirstSaved(after.savedModules, name) == FirstSaved(st.savedModules, name)
  {
    hide IsAnon;
    var own := InternalizeAll(fns, st.moduleSymbols);
    InternalizedNames(fns, st.moduleSymbols);
    assert own[i] == fns[i] && IsDefinition(own[i]);
    LinkEachExactly(st.linked, own, |own|);
    SaveEachExactly(own, |own|);
    UserNamesExactly(own, |own|);
    ZeroEachExactly(st.callCounts, UserNames(own, |own|));
    FirstSavedAppended(st.savedModules, SaveEach(own, |own|), fns[i].name);
    hide LinkEach, SaveEach, UserNames, ZeroEach, FirstSaved;
  }

  /** A module that is not accepted leaves copies of its new functions behind, and nothing else. */
  lemma RejectedOnlySaves(st: State, fns: seq<Fn>, valid: bool, accepted: bool, i: nat)
    requires DistinctFns(fns) && i < |fns| && !(valid && accepted)
    ensures var after := AddModule(st, fns, valid, accepted);
            && after == st.(savedModules := after.savedModules)
            && st.savedModules <= after.savedModules
            && (FirstSaved(after.savedModules, fns[i].name) ==
                  if FirstSaved(st.savedModules, fns[i].name).Some? then FirstSaved(st.savedModules, fns[i].name)
                  else if !fns[i].isDeclaration && fns[i].isExternal && fns[i].name != "" && !IsAnon(fns[i].name)
                          && fns[i].name !in st.moduleSymbols then Some(fns[i].code)
                  else None)
  {
    hide IsAnon;
    var own := InternalizeAll(fns, st.moduleSymbols);
    InternalizedNames(fns, st.moduleSymbols);
    assert own[i] == Internalized(fns[i], st.moduleSymbols);
    SaveEachExactly(own, |own|);
    FirstSavedAppended(st.savedModules, SaveEach(own, |own|), fns[i].name);
    hide SaveEach, FirstSaved, Internalized, InternalizeAll;
    forall j | 0 <= j < |own| && own[j].name == own[i].name
      ensures j == i
    {
    }
    assert Defines(own, |own|, own[i].name) <==> IsUserDefinition(own[i]);
  }

  // ----- What the process knows

  /** A registered host function answers for its name from then on, and no module redefines it. */
  lemma RegisteredIsAnswered(st: State, name: string, ptr: int, p: Option<Placement>, fns: seq<Fn>, i: nat)
    requires DistinctFns(fns) && i < |fns| && fns[i].name == name && !IsAnon(name)
    ensures Find(RegisterFunction(st, name, ptr), name, p).1 == Some(ptr)
    ensures IsUnchangedFor(RegisterFunction(st, name, ptr), AddModule(RegisterFunction(st, name, ptr), fns, true, true), name)
  {
    DeclarationsAddNothing(RegisterFunction(st, name, ptr), fns, i);
  }

  /** A name nobody has defined or looked up is answered by the process, and the answer is kept. */
  lemma ProcessAnswers(st: State, name: string, p: Option<Placement>)
    requires name !in st.functionPtrs && name !in st.linked
    ensures var (after, ptr) := Find(st, name, p);
            if name in st.host && st.host[name] != 0 then
              ptr == Some(st.host[name]) && after == st.(functionPtrs := st.functionPtrs[name := st.host[name]])
            else ptr == None && after == st
  {
  }
}
