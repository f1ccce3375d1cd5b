/** The JIT as the class runs it: maps, counters, saved copies and code bytes updated in place. */
module FluxJitEngine {
  import opened Bytes
  import opened JumpPatch
  import opened Options
  import opened Jit
  import opened JitLaws

  class FluxJIT {
    var functionPtrs: map<string, int>
    var promotedPtrs: map<string, int>
    var callCounts: map<string, nat>
    var savedModules: seq<Saved>
    var moduleSymbols: set<string>
    var threshold: int
    var linked: map<string, int>
    var host: map<string, int>
    ghost var regions: seq<Region>
    var memory: Memory

    /** A new engine in a process with the symbols `host`. */
    constructor (host: map<string, int>)
      ensures Snapshot() == Initial(host)
    {
      functionPtrs, promotedPtrs, callCounts := map[], map[], map[];
      savedModules, moduleSymbols, threshold := [], {}, DEFAULT_HOT_THRESHOLD;
      this.host := host;
      linked, regions, memory := map[], [], map[];
    }

    ghost function Snapshot(): State
      reads this
    {
      State(functionPtrs, promotedPtrs, callCounts, savedModules, moduleSymbols, threshold, linked, host, regions, memory)
    }

    /** The loop that makes the module's copies of known symbols private. */
    method Internalize(fns: seq<Fn>) returns (own: seq<Fn>)
      ensures own == InternalizeAll(fns, moduleSymbols)
    {
      own := fns;
      for i := 0 to |own|
        invariant |own| == |fns|
        invariant forall j :: 0 <= j < i ==> own[j] == Internalized(fns[j], moduleSymbols)
        invariant forall j :: i <= j < |fns| ==> own[j] == fns[j]
      {
        if !own[i].isDeclaration && own[i].isExternal && own[i].name != "" && !IsAnon(own[i].name) {
          if own[i].name in moduleSymbols {
            own := own[i := own[i].(isExternal := false)];
          }
        }
      }
    }

    /** Takes a module; `valid` and `accepted` are the verdicts of the verifier and of the linker. */
    method AddModuleToJit(fns: seq<Fn>, valid: bool, accepted: bool)
      modifies this
      ensures Snapshot() == AddModule(old(Snapshot()), fns, valid, accepted)
    {
      hide IsAnon;
      var own := Internalize(fns);
      for i := 0 to |own|
        invariant Snapshot() == old(Snapshot()).(savedModules := old(savedModules) + SaveEach(own, i))
      {
        if IsUserDefinition(own[i]) {
          savedModules := savedModules + [Saved(own[i].name, own[i].code)];
        }
      }
      if !valid {
        return;
      }
      var userFns := [];
      for i := 0 to |own|
        invariant userFns == UserNames(own, i)
      {
        if IsUserDefinition(own[i]) {
          userFns := userFns + [own[i].name];
        }
      }
      if !accepted {
        return;
      }
      Link(own);
      Record(userFns);
    }

    /** What the linker keeps of an accepted module. */
    method Link(own: seq<Fn>)
      modifies this`linked
      ensures linked == LinkEach(old(linked), own, |own|)
    {
      hide IsAnon;
      for i := 0 to |own|
        invariant linked == LinkEach(old(linked), own, i)
      {
        if IsDefinition(own[i]) {
          linked := linked[own[i].name := own[i].code];
        }
      }
    }

    method Record(userFns: seq<string>)
      modifies this`moduleSymbols, this`callCounts
      ensures moduleSymbols == old(moduleSymbols) + (set n | n in userFns)
      ensures callCounts == ZeroEach(old(callCounts), userFns)
    {
      for i := 0 to |userFns|
        invariant moduleSymbols == old(moduleSymbols) + (set n | n in userFns[..i])
        invariant callCounts == ZeroEach(old(callCounts), userFns[..i])
      {
        moduleSymbols := moduleSymbols + {userFns[i]};
        callCounts := callCounts[userFns[i] := 0];
        assert userFns[..i + 1][..i] == userFns[..i];
        assert userFns[..i + 1] == userFns[..i] + [userFns[i]];
      }
      assert userFns[..|userFns|] == userFns;
    }

    /** Writes a jump over the first five bytes at `oldAddr`. */
    method RedirectFunction(oldAddr: int, newAddr: int, unprotects: bool) returns (ok: bool)
      modifies this`memory
      ensures (ok, memory) == Redirect(old(memory), oldAddr, newAddr, unprotects)
      ensures ok ==> JumpTarget(memory, oldAddr) == Some(newAddr)
    {
      if oldAddr == 0 || newAddr == 0 {
        return false;
      }
      var delta := newAddr - (oldAddr + JMP_LENGTH);
      if delta < INT32_MIN || delta > INT32_MAX {
        return false;
      }
      if !unprotects {
        return false;
      }
      RedirectJumps(memory, oldAddr, newAddr, unprotects);
      hide JumpTarget, JumpBytes, Write;
      Store(oldAddr, JumpBytes(delta));
      return true;
    }

    /** Stores the bytes one after the other from `a` on. */
    method Store(a: int, bytes: seq<Byte>)
      modifies this`memory
      ensures memory == Write(old(memory), a, bytes)
    {
      assert bytes[..0] == [];
      for i := 0 to |bytes|
        invariant memory == Write(old(memory), a, bytes[..i])
      {
        assert bytes[..i + 1][..i] == bytes[..i];
        memory := memory[a + i := bytes[i]];
      }
      assert bytes[..|bytes|] == bytes;
    }

    /** The linker places a function's code at a place of its choosing. */
    method Load(name: string, code: int, p: Placement)
      modifies this`regions, this`memory
      ensures Snapshot() == Place(old(Snapshot()), name, code, p)
    {
      memory := Write(memory, p.addr, p.bytes);
      regions := regions + [Region(p.addr, p.bytes, name, code)];
    }

    method FindSaved(name: string) returns (code: Option<int>)
      ensures code == FirstSaved(savedModules, name)
    {
      var i := 0;
      while i < |savedModules|
        invariant 0 <= i <= |savedModules|
        invariant FirstSaved(savedModules, name) == FirstSaved(savedModules[i..], name)
      {
        if savedModules[i].name == name {
          return Some(savedModules[i].code);
        }
        assert savedModules[i..][1..] == savedModules[i + 1..];
        i := i + 1;
      }
      return None;
    }

    method PromoteFunction(name: string, r: Recompilation) returns (ptr: Option<int>)
      modifies this
      ensures (Snapshot(), ptr) == Promote(old(Snapshot()), name, r)
    {
      hide Write, Redirect, FirstSaved;
      if name in promotedPtrs {
        return Some(promotedPtrs[name]);
      }
      var original := if name in functionPtrs then functionPtrs[name] else 0;
      var code := FindSaved(name);
      if code.None? {
        return None;
      }
      if !r.compiles {
        return None;
      }
      Load(name, code.value, r.place);
      var address := r.place.addr;
      promotedPtrs := promotedPtrs[name := address];
      functionPtrs := functionPtrs[name := address];
      if original != 0 && original != address {
        var _ := RedirectFunction(original, address, r.unprotects);
      }
      return Some(address);
    }

    method FindPointer(name: string, p: Option<Placement>) returns (ptr: Option<int>)
      modifies this
      ensures (Snapshot(), ptr) == Find(old(Snapshot()), name, p)
    {
      hide Write;
      if name in functionPtrs {
        return Some(functionPtrs[name]);
      }
      if name in linked && p.Some? {
        Load(name, linked[name], p.value);
        functionPtrs := functionPtrs[name := p.value.addr];
        return Some(p.value.addr);
      }
      if name in host && host[name] != 0 {
        functionPtrs := functionPtrs[name := host[name]];
        return Some(host[name]);
      }
      return None;
    }

    method GetPointerToFunction(name: string, p: Option<Placement>, r: Recompilation) returns (result: Option<int>)
      modifies this
      ensures (Snapshot(), result) == Lookup(old(Snapshot()), name, p, r)
    {
      hide Promote, Find;
      var ptr := FindPointer(name, p);
      if ptr.None? {
        return None;
      }
      result := ptr;
      if name in callCounts {
        callCounts := callCounts[name := callCounts[name] + 1];
        if threshold > 0 && callCounts[name] >= threshold {
          if name !in promotedPtrs {
            var promoted := PromoteFunction(name, r);
            if promoted.Some? && promoted.value != 0 {
              result := promoted;
            }
          }
        }
      }
    }

    method ResetCallCounts()
      modifies this`callCounts
      ensures Snapshot() == ResetCounts(old(Snapshot()))
    {
      var names := callCounts.Keys;
      while names != {}
        invariant names <= callCounts.Keys == old(callCounts).Keys
        invariant forall n :: n in callCounts && n !in names ==> callCounts[n] == 0
      {
        var n :| n in names;
        callCounts := callCounts[n := 0];
        names := names - {n};
      }
    }

    method IsPromoted(name: string) returns (promoted: bool)
      ensures promoted == (name in promotedPtrs)
    {
      promoted := name in promotedPtrs;
    }

    method RegisterHostFunction(name: string, ptr: int)
      modifies this
      ensures Snapshot() == RegisterFunction(old(Snapshot()), name, ptr)
    {
      functionPtrs := functionPtrs[name := ptr];
      host := host[name := ptr];
      moduleSymbols := moduleSymbols + {name};
    }
  }
}
