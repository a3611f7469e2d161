/**
 * The commit/revert engine of mv_commit.c: the descriptor registry as an
 * object whose function and variable descriptors the public operations
 * update, with ghost logs of what was handed to the patch mechanism, which
 * synthetic variants were decoded, and which platform calls were made.
 */
module Commit {
  import opened Wrappers
  import opened Bytes
  import opened Descriptors
  import opened Selection
  import opened PatchBuffer
  import opened Transaction
  import opened CommitSpec

  class Multiverse {
    /** The registered functions, in linker-section order. */
    var fns: seq<FnInfo>
    var vars: seq<VarInfo>
    /** multiverse_info_fn and multiverse_info_var: known addresses to descriptors. */
    const fnByBody: map<Addr, nat>
    const varByLocation: map<Addr, nat>
    const arch: Arch
    /** The sizes of the two linker sections, fixed at link time. */
    const fnCount: nat
    const varCount: nat
    /** Every patch set submitted with syscall(1000, ...), in order. */
    ghost var submitted: seq<Batch>
    /** The functions whose synthetic variant was decoded, in order. */
    ghost var decoded: seq<nat>
    /** Platform calls made at transaction boundaries. */
    ghost var osTrace: seq<OsEvent>

    ghost predicate Valid()
      reads this
    {
      && |fns| == fnCount && |vars| == varCount
      && WfRegistry(fns, vars)
      && (forall a :: a in fnByBody ==> fnByBody[a] < fnCount)
      && (forall a :: a in varByLocation ==> varByLocation[a] < varCount)
    }

    /** The registry as the build and the linker leave it. */
    constructor (fns: seq<FnInfo>, vars: seq<VarInfo>, fnByBody: map<Addr, nat>,
                 varByLocation: map<Addr, nat>, arch: Arch)
      requires WfRegistry(fns, vars)
      requires forall a :: a in fnByBody ==> fnByBody[a] < |fns|
      requires forall a :: a in varByLocation ==> varByLocation[a] < |vars|
      ensures Valid()
      ensures this.fns == fns && this.vars == vars && this.fnByBody == fnByBody
      ensures this.varByLocation == varByLocation && this.arch == arch
      ensures submitted == [] && decoded == [] && osTrace == []
    {
      this.fns, this.vars := fns, vars;
      this.fnByBody, this.varByLocation, this.arch := fnByBody, varByLocation, arch;
      fnCount, varCount := |fns|, |vars|;
      submitted, decoded, osTrace := [], [], [];
    }

    /**
     * multiverse_select_mvfn: a no-op returning 0 when target is already active;
     * otherwise one patch set is assembled and submitted, and only then does
     * target become active. The transaction context is not touched.
     */
    method SelectMvfn(ctx: TransactionCtx, i: nat, target: Option<nat>) returns (r: int)
      requires Valid() && i < |fns|
      requires target.Some? ==> target.value < |fns[i].mvFunctions|
      modifies this`fns, this`submitted
      ensures Valid() && vars == old(vars) && decoded == old(decoded) && osTrace == old(osTrace)
      ensures r == SelectState(old(fns[i]), target).1
      ensures fns == old(fns)[i := SelectState(old(fns[i]), target).0]
      ensures submitted == old(submitted) + if r == 1 then [BatchFor(arch, i, old(fns[i]), target)] else []
    {
      if target == fns[i].active {
        return 0;
      }
      var patches, size := AssemblePatches(arch, fns[i], TargetVariant(fns[i], target));
      submitted := submitted + [Batch(i, patches, size, fns[i].active)];
      RegistryUpdate(fns, vars, i, fns[i].(active := target));
      fns := fns[i := fns[i].(active := target)];
      r := 1;
    }

    /**
     * mv_commit.c:173-197: in function-pointer mode, load the pointer, give the
     * synthetic variant its body, and clear active_mvfn (logging a decode) when
     * the change is forced.
     */
    method RefreshFnPtr(i: nat, mem: Memory)
      requires Valid() && i < |fns| && fns[i].IsFnPtr()
      modifies this`fns, this`decoded
      ensures Valid() && vars == old(vars) && osTrace == old(osTrace) && submitted == old(submitted)
      ensures fns == old(fns)[i := Prepared(old(fns[i]), mem)]
      ensures decoded == old(decoded) + if DecodeForced(old(fns[i]), mem) then [i] else []
    {
      var fn := fns[i];
      var oldBody := if fn.active.Some? then fn.mvFunctions[fn.active.value].functionBody else NULL;
      var newBody := LoadLE(mem, fn.functionBody, WordSize);
      // multiverse_os_malloc'd on first use, with n_assignments = 0 and assignments = NULL
      var synth := if |fn.mvFunctions| == 0 then Variant(NULL, []) else fn.mvFunctions[0];
      var forced := fn.active.None? || oldBody != newBody;
      var g := fn.(mvFunctions := [synth.(functionBody := newBody)], active := if forced then None else fn.active);
      assert g == FnPtrRefresh(fn, mem);
      FnPtrRefreshWf(fn, mem);
      RegistryUpdate(fns, vars, i, g);
      fns := fns[i := g];
      if forced {
        decoded := decoded + [i];
      }
    }

    /** __multiverse_commit_fn: select the target, then switch to it. */
    method CommitFnCore(ctx: TransactionCtx, i: nat, mem: Memory) returns (r: int)
      requires Valid() && i < |fns| && Readable(fns[i], vars)
      modifies this`fns, this`submitted, this`decoded
      ensures Valid() && vars == old(vars) && osTrace == old(osTrace)
      ensures r == CommitFnState(old(fns[i]), vars, mem).1
      ensures fns == old(fns)[i := CommitFnState(old(fns[i]), vars, mem).0]
      ensures submitted == old(submitted) + CommitBatch(arch, i, old(fns[i]), vars, mem)
      ensures decoded == old(decoded) + CommitDecode(i, old(fns[i]), mem)
    {
      var fn := fns[i];
      if fn.nMvFunctions != FnPtrSentinel {
        var best := BestVariant(fn.mvFunctions, vars, mem);
        assert Prepared(fn, mem) == fn && CommitTarget(fn, vars, mem) == best;
        assert CommitFnState(fn, vars, mem) == SelectState(fn, best);
        r := SelectMvfn(ctx, i, best);
      } else {
        RefreshFnPtr(i, mem);
        assert CommitTarget(fn, vars, mem) == Some(0);
        assert CommitFnState(fn, vars, mem) == SelectState(fns[i], Some(0));
        r := SelectMvfn(ctx, i, Some(0));
      }
    }

    /** Opens a transaction, which nothing fills, and closes it: protects nothing, flushes once. */
    static method EmptyTransaction() returns (ctx: TransactionCtx)
      ensures fresh(ctx) && fresh(ctx.unprotected) && ctx.Valid() && ctx.osTrace == []
      ensures forall k :: 0 <= k < ctx.unprotected.Length ==> ctx.unprotected[k] == NULL
    {
      ctx := new TransactionCtx.Start();
    }

    /** mv_transaction_end on a context nobody filled. */
    static method EndEmpty(ctx: TransactionCtx)
      requires ctx.Valid() && ctx.osTrace == []
      requires forall k :: 0 <= k < ctx.unprotected.Length ==> ctx.unprotected[k] == NULL
      modifies ctx
      ensures ctx.osTrace == [ClearCaches]
    {
      ProtectEachEmpty(ctx.unprotected[..]);
      ctx.End();
    }

    /** multiverse_commit_info_fn: one function, in one transaction. */
    method CommitInfoFn(i: nat, mem: Memory) returns (r: int)
      requires Valid() && i < |fns| && Readable(fns[i], vars)
      modifies this`fns, this`submitted, this`decoded, this`osTrace
      ensures Valid() && vars == old(vars)
      ensures r == CommitFnState(old(fns[i]), vars, mem).1
      ensures fns == old(fns)[i := CommitFnState(old(fns[i]), vars, mem).0]
      ensures submitted == old(submitted) + CommitBatch(arch, i, old(fns[i]), vars, mem)
      ensures decoded == old(decoded) + CommitDecode(i, old(fns[i]), mem)
      ensures osTrace == old(osTrace) + [ClearCaches]
    {
      var ctx := EmptyTransaction();
      r := CommitFnCore(ctx, i, mem);
      EndEmpty(ctx);
      osTrace := osTrace + ctx.osTrace;
    }

    /** multiverse_commit_fn: -1 and no change for an unknown function. */
    method CommitFn(body: Addr, mem: Memory) returns (r: int)
      requires Valid()
      requires body in fnByBody ==> Readable(fns[fnByBody[body]], vars)
      modifies this`fns, this`submitted, this`decoded, this`osTrace
      ensures Valid() && vars == old(vars)
      ensures body !in fnByBody ==>
        r == -1 && fns == old(fns) && submitted == old(submitted) && decoded == old(decoded) && osTrace == old(osTrace)
      ensures body in fnByBody ==>
        var i := fnByBody[body];
        && r == CommitFnState(old(fns[i]), vars, mem).1
        && fns == old(fns)[i := CommitFnState(old(fns[i]), vars, mem).0]
        && submitted == old(submitted) + CommitBatch(arch, i, old(fns[i]), vars, mem)
        && decoded == old(decoded) + CommitDecode(i, old(fns[i]), mem)
        && osTrace == old(osTrace) + [ClearCaches]
    {
      if body !in fnByBody {
        return -1;
      }
      r := CommitInfoFn(fnByBody[body], mem);
    }

    /**
     * The loop of multiverse_commit_info_refs and multiverse_commit: commit
     * each function of order in turn inside the caller's transaction and sum
     * the results.
     */
    method CommitEach(ctx: TransactionCtx, order: seq<nat>, mem: Memory) returns (ret: int)
      requires Valid() && ReadableAt(fns, vars, order)
      modifies this`fns, this`submitted, this`decoded
      ensures Valid()
      ensures (fns, ret) == CommitMany(old(fns), vars, mem, order)
      ensures submitted == old(submitted) + CommitBatches(arch, old(fns), vars, mem, order)
      ensures decoded == old(decoded) + CommitDecodes(old(fns), vars, mem, order)
    {
      ret := 0;
      ghost var goal := CommitMany(fns, vars, mem, order);
      ghost var batches := CommitBatches(arch, fns, vars, mem, order);
      ghost var decodes := CommitDecodes(fns, vars, mem, order);
      assert order[0..] == order;
      var k := 0;
      while k < |order|
        invariant 0 <= k <= |order|
        invariant Valid()
        invariant ReadableAt(fns, vars, order[k..])
        invariant goal.0 == CommitMany(fns, vars, mem, order[k..]).0
        invariant goal.1 == ret + CommitMany(fns, vars, mem, order[k..]).1
        invariant old(submitted) + batches == submitted + CommitBatches(arch, fns, vars, mem, order[k..])
        invariant old(decoded) + decodes == decoded + CommitDecodes(fns, vars, mem, order[k..])
      {
        CommitManyAt(fns, vars, mem, order, k);
        CommitLogAt(arch, fns, vars, mem, order, k);
        ghost var f, sub, dec := fns[order[k]], submitted, decoded;
        var r := CommitFnCore(ctx, order[k], mem);
        AppendAssoc(sub, CommitBatch(arch, order[k], f, vars, mem), CommitBatches(arch, fns, vars, mem, order[k + 1..]));
        AppendAssoc(dec, CommitDecode(order[k], f, mem), CommitDecodes(fns, vars, mem, order[k + 1..]));
        ret := ret + r;
        k := k + 1;
      }
      CommitManyDone(fns, vars, mem, order, k);
      assert order[k..] == [];
    }

    /** multiverse_commit_info_refs: every function referencing variable v, in list order, in one transaction. */
    method CommitInfoRefs(v: nat, mem: Memory) returns (ret: int)
      requires Valid() && v < |vars| && ReadableAt(fns, vars, vars[v].functions)
      modifies this`fns, this`submitted, this`decoded, this`osTrace
      ensures Valid() && vars == old(vars)
      ensures (fns, ret) == CommitMany(old(fns), vars, mem, vars[v].functions)
      ensures submitted == old(submitted) + CommitBatches(arch, old(fns), vars, mem, vars[v].functions)
      ensures decoded == old(decoded) + CommitDecodes(old(fns), vars, mem, vars[v].functions)
      ensures osTrace == old(osTrace) + [ClearCaches]
    {
      var ctx := EmptyTransaction();
      ret := CommitEach(ctx, vars[v].functions, mem);
      EndEmpty(ctx);
      osTrace := osTrace + ctx.osTrace;
    }

    /** multiverse_commit_refs: -1 and no change for an unknown variable. */
    method CommitRefs(location: Addr, mem: Memory) returns (ret: int)
      requires Valid()
      requires location in varByLocation ==> ReadableAt(fns, vars, vars[varByLocation[location]].functions)
      modifies this`fns, this`submitted, this`decoded, this`osTrace
      ensures Valid() && vars == old(vars)
      ensures location !in varByLocation ==>
        ret == -1 && fns == old(fns) && submitted == old(submitted) && decoded == old(decoded) && osTrace == old(osTrace)
      ensures location in varByLocation ==>
        var refs := vars[varByLocation[location]].functions;
        && (fns, ret) == CommitMany(old(fns), vars, mem, refs)
        && submitted == old(submitted) + CommitBatches(arch, old(fns), vars, mem, refs)
        && decoded == old(decoded) + CommitDecodes(old(fns), vars, mem, refs)
        && osTrace == old(osTrace) + [ClearCaches]
    {
      if location !in varByLocation {
        return -1;
      }
      ret := CommitInfoRefs(varByLocation[location], mem);
    }

    /** multiverse_commit: every registered function, in registry order, in one transaction. */
    method CommitAll(mem: Memory) returns (ret: int)
      requires Valid() && forall i :: 0 <= i < |fns| ==> Readable(fns[i], vars)
      modifies this`fns, this`submitted, this`decoded, this`osTrace
      ensures Valid() && vars == old(vars)
      ensures ReadableAt(old(fns), vars, Range(0, |old(fns)|))
      ensures (fns, ret) == CommitMany(old(fns), vars, mem, Range(0, |old(fns)|))
      ensures submitted == old(submitted) + CommitBatches(arch, old(fns), vars, mem, Range(0, |old(fns)|))
      ensures decoded == old(decoded) + CommitDecodes(old(fns), vars, mem, Range(0, |old(fns)|))
      ensures osTrace == old(osTrace) + [ClearCaches]
    {
      var ctx := EmptyTransaction();
      var order := Range(0, |fns|);
      assert ReadableAt(fns, vars, order);
      ret := CommitEach(ctx, order, mem);
      EndEmpty(ctx);
      osTrace := osTrace + ctx.osTrace;
    }

    /** multiverse_revert_info_fn: switch one function back to its default body. */
    method RevertInfoFn(i: nat) returns (r: int)
      requires Valid() && i < |fns|
      modifies this`fns, this`submitted, this`osTrace
      ensures Valid() && vars == old(vars)
      ensures r == SelectState(old(fns[i]), None).1
      ensures fns == old(fns)[i := old(fns[i]).(active := None)]
      ensures submitted == old(submitted) + RevertBatch(arch, i, old(fns[i]))
      ensures osTrace == old(osTrace) + [ClearCaches]
    {
      var ctx := EmptyTransaction();
      r := SelectMvfn(ctx, i, None);
      EndEmpty(ctx);
      osTrace := osTrace + ctx.osTrace;
    }

    /** multiverse_revert_fn: -1 and no change for an unknown function. */
    method RevertFn(body: Addr) returns (r: int)
      requires Valid()
      modifies this`fns, this`submitted, this`osTrace
      ensures Valid() && vars == old(vars)
      ensures body !in fnByBody ==> r == -1 && fns == old(fns) && submitted == old(submitted) && osTrace == old(osTrace)
      ensures body in fnByBody ==>
        var i := fnByBody[body];
        && r == SelectState(old(fns[i]), None).1
        && fns == old(fns)[i := old(fns[i]).(active := None)]
        && submitted == old(submitted) + RevertBatch(arch, i, old(fns[i]))
        && osTrace == old(osTrace) + [ClearCaches]
    {
      if body !in fnByBody {
        return -1;
      }
      r := RevertInfoFn(fnByBody[body]);
    }

    /**
     * The loop of multiverse_revert_info_refs and multiverse_revert: revert
     * each function of order in turn inside the caller's transaction and sum
     * the results.
     */
    method RevertEach(ctx: TransactionCtx, order: seq<nat>) returns (ret: int)
      requires Valid() && forall j :: 0 <= j < |order| ==> order[j] < |fns|
      modifies this`fns, this`submitted
      ensures Valid()
      ensures (fns, ret) == RevertMany(old(fns), order)
      ensures submitted == old(submitted) + RevertBatches(arch, old(fns), order)
    {
      ret := 0;
      ghost var goal := RevertMany(fns, order);
      ghost var batches := RevertBatches(arch, fns, order);
      assert order[0..] == order;
      var k := 0;
      while k < |order|
        invariant 0 <= k <= |order|
        invariant Valid() && |fns| == |old(fns)|
        invariant goal.0 == RevertMany(fns, order[k..]).0
        invariant goal.1 == ret + RevertMany(fns, order[k..]).1
        invariant old(submitted) + batches == submitted + RevertBatches(arch, fns, order[k..])
      {
        RevertManyAt(fns, order, k);
        RevertLogAt(arch, fns, order, k);
        ghost var f, sub := fns[order[k]], submitted;
        var r := SelectMvfn(ctx, order[k], None);
        AppendAssoc(sub, RevertBatch(arch, order[k], f), RevertBatches(arch, fns, order[k + 1..]));
        ret := ret + r;
        k := k + 1;
      }
      RevertManyDone(fns, order, k);
      assert order[k..] == [];
    }

    /** multiverse_revert_info_refs: every function referencing variable v, in list order, in one transaction. */
    method RevertInfoRefs(v: nat) returns (ret: int)
      requires Valid() && v < |vars|
      modifies this`fns, this`submitted, this`osTrace
      ensures Valid() && vars == old(vars)
      ensures (fns, ret) == RevertMany(old(fns), vars[v].functions)
      ensures submitted == old(submitted) + RevertBatches(arch, old(fns), vars[v].functions)
      ensures osTrace == old(osTrace) + [ClearCaches]
    {
      var ctx := EmptyTransaction();
      ret := RevertEach(ctx, vars[v].functions);
      EndEmpty(ctx);
      osTrace := osTrace + ctx.osTrace;
    }

    /** multiverse_revert_refs: -1 and no change for an unknown variable. */
    method RevertRefs(location: Addr) returns (ret: int)
      requires Valid()
      modifies this`fns, this`submitted, this`osTrace
      ensures Valid() && vars == old(vars)
      ensures location !in varByLocation ==> ret == -1 && fns == old(fns) && submitted == old(submitted) && osTrace == old(osTrace)
      ensures location in varByLocation ==>
        && (fns, ret) == RevertMany(old(fns), vars[varByLocation[location]].functions)
        && submitted == old(submitted) + RevertBatches(arch, old(fns), vars[varByLocation[location]].functions)
        && osTrace == old(osTrace) + [ClearCaches]
    {
      if location !in varByLocation {
        return -1;
      }
      ret := RevertInfoRefs(varByLocation[location]);
    }

    /** multiverse_revert: every registered function, in registry order, in one transaction. */
    method RevertAll() returns (ret: int)
      requires Valid()
      modifies this`fns, this`submitted, this`osTrace
      ensures Valid() && vars == old(vars)
      ensures (fns, ret) == RevertMany(old(fns), Range(0, |old(fns)|))
      ensures submitted == old(submitted) + RevertBatches(arch, old(fns), Range(0, |old(fns)|))
      ensures osTrace == old(osTrace) + [ClearCaches]
    {
      var ctx := EmptyTransaction();
      ret := RevertEach(ctx, Range(0, |fns|));
      EndEmpty(ctx);
      osTrace := osTrace + ctx.osTrace;
    }

    /** multiverse_is_committed, for a known function. */
    method IsCommitted(body: Addr) returns (r: int)
      requires Valid() && body in fnByBody
      ensures r == 1 <==> fns[fnByBody[body]].active.Some?
      ensures r == 0 || r == 1
    {
      r := if fns[fnByBody[body]].active.Some? then 1 else 0;
    }

    /** multiverse_bind: report or set whether a variable's value is trusted. */
    method Bind(location: Addr, state: int) returns (r: int)
      requires Valid()
      modifies this`vars
      ensures Valid() && fns == old(fns)
      ensures submitted == old(submitted) && decoded == old(decoded) && osTrace == old(osTrace)
      ensures location !in varByLocation ==> r == -1 && vars == old(vars)
      ensures location in varByLocation ==>
        var x := varByLocation[location];
        && vars == old(vars)[x := BindSpec(old(vars[x]), state).0]
        && r == BindSpec(old(vars[x]), state).1
    {
      if location !in varByLocation {
        return -1;
      }
      var x := varByLocation[location];
      if state >= 0 {
        if !vars[x].tracked {
          return -1;
        }
        vars := vars[x := vars[x].(bound := state != 0)];
      }
      r := if vars[x].bound then 1 else 0;
    }
  }
}
