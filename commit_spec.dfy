/**
 * What one commit, revert or bind does to the descriptors, as functions of
 * the old descriptors and program memory; and the bulk loops as folds over
 * the order in which they visit functions.
 */
module CommitSpec {
  import opened Wrappers
  import opened Bytes
  import opened Descriptors
  import opened Selection
  import opened PatchBuffer

  /** The mv_info_mvfn a target index points at (NULL for None). */
  function TargetVariant(f: FnInfo, target: Option<nat>): Option<Variant>
    requires target.Some? ==> target.value < |f.mvFunctions|
  {
    if target.None? then None else Some(f.mvFunctions[target.value])
  }

  /** One submission to the patch mechanism: the function, its records, the
      buffer size, and the active variant at the moment of submission. */
  datatype Batch = Batch(fn: nat, patches: seq<Patch>, size: nat, activeBefore: Option<nat>)

  function BatchFor(arch: Arch, i: nat, f: FnInfo, target: Option<nat>): Batch
    requires target.Some? ==> target.value < |f.mvFunctions|
  {
    var ps := PatchSet(arch, f, TargetVariant(f, target), f.patchpoints);
    Batch(i, ps, BufferSize(ps), f.active)
  }

  /** multiverse_select_mvfn on one descriptor: 0 and no change when the target
      is already active, otherwise 1 and the target becomes active. */
  function SelectState(f: FnInfo, target: Option<nat>): (r: (FnInfo, int))
    ensures r.1 == 0 || r.1 == 1
    ensures r.1 == 0 <==> target == f.active
    ensures r.0.active == target
    ensures r.0 == f.(active := target)
  {
    if target == f.active then (f, 0) else (f.(active := target), 1)
  }

  // ---------------------------------------------------------------- function-pointer mode

  /** The body of the previously active synthetic variant, NULL if none. */
  function OldBody(f: FnInfo): Addr
    requires f.active.Some? ==> f.active.value < |f.mvFunctions|
  {
    if f.active.Some? then f.mvFunctions[f.active.value].functionBody else NULL
  }

  /** The pointer currently stored at the function-pointer variable. */
  function NewBody(f: FnInfo, mem: Memory): Addr {
    LoadLE(mem, f.functionBody, WordSize)
  }

  /** The change is forced (and the body decoded) when nothing is active or the pointer moved. */
  predicate DecodeForced(f: FnInfo, mem: Memory)
    requires f.active.Some? ==> f.active.value < |f.mvFunctions|
  {
    f.active.None? || OldBody(f) != NewBody(f, mem)
  }

  /** mv_commit.c:177-197: the synthetic variant takes the new body (allocated
      with no assignments on first use), and a forced change clears active_mvfn. */
  function FnPtrRefresh(f: FnInfo, mem: Memory): FnInfo
    requires f.active.Some? ==> f.active.value < |f.mvFunctions|
  {
    var body := NewBody(f, mem);
    var synth := if |f.mvFunctions| == 0 then Variant(body, []) else f.mvFunctions[0].(functionBody := body);
    f.(mvFunctions := [synth], active := if DecodeForced(f, mem) then None else f.active)
  }

  /** The refreshed descriptor is still well formed: one synthetic variant, no assignments. */
  lemma FnPtrRefreshWf(f: FnInfo, mem: Memory)
    requires WfFn(f) && f.IsFnPtr()
    ensures WfFn(FnPtrRefresh(f, mem))
  {
  }

  // ---------------------------------------------------------------- one function

  /** The descriptor select is called on. */
  function Prepared(f: FnInfo, mem: Memory): FnInfo
    requires f.active.Some? ==> f.active.value < |f.mvFunctions|
  {
    if f.IsFnPtr() then FnPtrRefresh(f, mem) else f
  }

  /** The target __multiverse_commit_fn passes to select. */
  function CommitTarget(f: FnInfo, vars: seq<VarInfo>, mem: Memory): Option<nat>
    requires WfFn(f) && Readable(f, vars)
  {
    if f.IsFnPtr() then Some(0) else SelectLast(f.mvFunctions, vars, mem)
  }

  /** __multiverse_commit_fn on one descriptor: the new descriptor and 0/1. */
  function CommitFnState(f: FnInfo, vars: seq<VarInfo>, mem: Memory): (r: (FnInfo, int))
    requires WfFn(f) && Readable(f, vars)
    ensures r.1 == 0 || r.1 == 1
    ensures WfFn(r.0) && Readable(r.0, vars)
    ensures r.0.patchpoints == f.patchpoints && r.0.nMvFunctions == f.nMvFunctions
    ensures !f.IsFnPtr() ==> r.0.mvFunctions == f.mvFunctions
  {
    var p := Prepared(f, mem);
    var t := CommitTarget(f, vars, mem);
    assert t.Some? ==> t.value < |p.mvFunctions|;
    SelectState(p, t)
  }

  /** For a normal function commit activates the last candidate variant, or
      none if there is no candidate. */
  lemma CommitSelectsLast(f: FnInfo, vars: seq<VarInfo>, mem: Memory)
    requires WfFn(f) && Readable(f, vars) && !f.IsFnPtr()
    ensures var a := CommitFnState(f, vars, mem).0.active;
      && (a.Some? ==>
            && a.value < |f.mvFunctions|
            && Candidate(f.mvFunctions[a.value], vars, mem)
            && forall j :: a.value < j < |f.mvFunctions| ==> !Candidate(f.mvFunctions[j], vars, mem))
      && (a.None? <==> forall j :: 0 <= j < |f.mvFunctions| ==> !Candidate(f.mvFunctions[j], vars, mem))
  {
    SelectLastSpec(f.mvFunctions, vars, mem);
  }

  /** In function-pointer mode the one synthetic variant mirrors the pointer and
      has no assignments; commit reports a change exactly when it was forced. */
  lemma FnPtrCommit(f: FnInfo, vars: seq<VarInfo>, mem: Memory)
    requires WfFn(f) && Readable(f, vars) && f.IsFnPtr()
    ensures var r := CommitFnState(f, vars, mem);
      && |r.0.mvFunctions| == 1
      && r.0.mvFunctions[0].functionBody == NewBody(f, mem)
      && r.0.mvFunctions[0].assignments == []
      && r.0.active == Some(0)
      && (r.1 == 1 <==> DecodeForced(f, mem))
  {
    if !DecodeForced(f, mem) {
      assert f.active == Some(0);
    }
  }

  /** A commit that reports 0 changes nothing. */
  lemma CommitUnchangedIsNoop(f: FnInfo, vars: seq<VarInfo>, mem: Memory)
    requires WfFn(f) && Readable(f, vars)
    requires CommitFnState(f, vars, mem).1 == 0
    ensures CommitFnState(f, vars, mem).0 == f
  {
    if f.IsFnPtr() {
      FnPtrCommit(f, vars, mem);
      assert !DecodeForced(f, mem);
      assert f.active == Some(0) && |f.mvFunctions| == 1;
      var synth := f.mvFunctions[0].(functionBody := NewBody(f, mem));
      assert synth == f.mvFunctions[0];
      assert [synth] == f.mvFunctions;
    }
  }

  /** Committing twice with the same variables and memory: the second commit
      reports 0, changes nothing and decodes nothing. */
  lemma CommitIdempotent(f: FnInfo, vars: seq<VarInfo>, mem: Memory)
    requires WfFn(f) && Readable(f, vars)
    ensures var g := CommitFnState(f, vars, mem).0;
      && CommitFnState(g, vars, mem) == (g, 0)
      && !(g.IsFnPtr() && DecodeForced(g, mem))
  {
    var g := CommitFnState(f, vars, mem).0;
    if f.IsFnPtr() {
      FnPtrCommit(f, vars, mem);
      FnPtrCommit(g, vars, mem);
      assert OldBody(g) == NewBody(g, mem);
      assert !DecodeForced(g, mem);
    } else {
    }
    assert CommitFnState(g, vars, mem).1 == 0;
    CommitUnchangedIsNoop(g, vars, mem);
  }

  // ---------------------------------------------------------------- bulk loops

  ghost predicate AllWf(fns: seq<FnInfo>) {
    forall i :: 0 <= i < |fns| ==> WfFn(fns[i])
  }

  /** Every function the loop visits is a valid index and safe to select for. */
  ghost predicate ReadableAt(fns: seq<FnInfo>, vars: seq<VarInfo>, order: seq<nat>) {
    forall k :: 0 <= k < |order| ==> order[k] < |fns| && Readable(fns[order[k]], vars)
  }

  /** The commit loop over a sequence of function indices: final descriptors
      and the accumulated count. */
  function CommitMany(fns: seq<FnInfo>, vars: seq<VarInfo>, mem: Memory, order: seq<nat>): (r: (seq<FnInfo>, int))
    requires AllWf(fns) && ReadableAt(fns, vars, order)
    ensures |r.0| == |fns|
    ensures 0 <= r.1 <= |order|
    decreases |order|
  {
    if order == [] then (fns, 0)
    else
      var step := CommitFnState(fns[order[0]], vars, mem);
      var fns' := fns[order[0] := step.0];
      CommitManyStep'(fns, vars, mem, order);
      var rest := CommitMany(fns', vars, mem, order[1..]);
      (rest.0, step.1 + rest.1)
  }

  /** What one turn of the commit loop hands to the next. */
  lemma CommitManyStep'(fns: seq<FnInfo>, vars: seq<VarInfo>, mem: Memory, order: seq<nat>)
    requires order != [] && AllWf(fns) && ReadableAt(fns, vars, order)
    ensures var fns' := fns[order[0] := CommitFnState(fns[order[0]], vars, mem).0];
      AllWf(fns') && ReadableAt(fns', vars, order[1..])
  {
    var step := CommitFnState(fns[order[0]], vars, mem);
    var fns' := fns[order[0] := step.0];
    assert ReadableAt(fns', vars, order[1..]) by {
      forall k | 0 <= k < |order[1..]| ensures order[1..][k] < |fns'| && Readable(fns'[order[1..][k]], vars) {
        assert order[1..][k] == order[k + 1];
      }
    }
    assert AllWf(fns') by {
      forall j | 0 <= j < |fns'| ensures WfFn(fns'[j]) {
        if j != order[0] {
          assert fns'[j] == fns[j];
        }
      }
    }
  }

  /** The commit loop keeps every descriptor well formed and leaves the
      functions it does not visit as they were. */
  lemma {:induction false} CommitManyFrame(fns: seq<FnInfo>, vars: seq<VarInfo>, mem: Memory, order: seq<nat>)
    requires AllWf(fns) && ReadableAt(fns, vars, order)
    ensures var r := CommitMany(fns, vars, mem, order);
      && AllWf(r.0)
      && forall i :: 0 <= i < |fns| && i !in order ==> r.0[i] == fns[i]
    decreases |order|
  {
    if order != [] {
      var fns' := fns[order[0] := CommitFnState(fns[order[0]], vars, mem).0];
      CommitManyStep'(fns, vars, mem, order);
      CommitManyFrame(fns', vars, mem, order[1..]);
      assert forall i :: i !in order ==> i !in order[1..] && i != order[0];
    }
  }

  /** One turn of the commit loop: commit the first function, then the rest. */
  lemma CommitManyStep(fns: seq<FnInfo>, vars: seq<VarInfo>, mem: Memory, order: seq<nat>)
    requires order != [] && AllWf(fns) && ReadableAt(fns, vars, order)
    ensures var step := CommitFnState(fns[order[0]], vars, mem);
      var fns' := fns[order[0] := step.0];
      && AllWf(fns')
      && ReadableAt(fns', vars, order[1..])
      && CommitMany(fns, vars, mem, order) ==
         (CommitMany(fns', vars, mem, order[1..]).0, step.1 + CommitMany(fns', vars, mem, order[1..]).1)
  {
    var step := CommitFnState(fns[order[0]], vars, mem);
    var fns' := fns[order[0] := step.0];
    CommitManyStep'(fns, vars, mem, order);
    var rest := CommitMany(fns', vars, mem, order[1..]);
    assert CommitMany(fns, vars, mem, order) == (rest.0, step.1 + rest.1);
  }

  /** CommitManyStep for the suffix of order from position k, as the loops use it. */
  lemma CommitManyAt(fns: seq<FnInfo>, vars: seq<VarInfo>, mem: Memory, order: seq<nat>, k: nat)
    requires k < |order| && AllWf(fns) && ReadableAt(fns, vars, order[k..])
    ensures order[k] < |fns| && Readable(fns[order[k]], vars)
    ensures var step := CommitFnState(fns[order[k]], vars, mem);
      var fns' := fns[order[k] := step.0];
      && AllWf(fns')
      && ReadableAt(fns', vars, order[k + 1..])
      && CommitMany(fns, vars, mem, order[k..]).0 == CommitMany(fns', vars, mem, order[k + 1..]).0
      && CommitMany(fns, vars, mem, order[k..]).1 == step.1 + CommitMany(fns', vars, mem, order[k + 1..]).1
  {
    assert order[k..][0] == order[k] && order[k..][1..] == order[k + 1..];
    CommitManyStep(fns, vars, mem, order[k..]);
  }

  /** Where the loops stop: nothing left to commit. */
  lemma CommitManyDone(fns: seq<FnInfo>, vars: seq<VarInfo>, mem: Memory, order: seq<nat>, k: nat)
    requires k == |order| && AllWf(fns) && ReadableAt(fns, vars, order[k..])
    ensures CommitMany(fns, vars, mem, order[k..]).0 == fns
    ensures CommitMany(fns, vars, mem, order[k..]).1 == 0
  {
    assert order[k..] == [];
  }

  /** The revert loop over a sequence of function indices. */
  function RevertMany(fns: seq<FnInfo>, order: seq<nat>): (r: (seq<FnInfo>, int))
    requires forall k :: 0 <= k < |order| ==> order[k] < |fns|
    ensures |r.0| == |fns|
    ensures 0 <= r.1 <= |order|
    decreases |order|
  {
    if order == [] then (fns, 0)
    else
      var step := SelectState(fns[order[0]], None);
      var rest := RevertMany(fns[order[0] := step.0], order[1..]);
      (rest.0, step.1 + rest.1)
  }

  /** The revert loop leaves every function it visits with no active variant
      and every other function as it was. */
  lemma {:induction false} RevertManyEffect(fns: seq<FnInfo>, order: seq<nat>)
    requires forall k :: 0 <= k < |order| ==> order[k] < |fns|
    ensures var r := RevertMany(fns, order);
      forall i :: 0 <= i < |fns| ==> r.0[i] == if i in order then fns[i].(active := None) else fns[i]
    decreases |order|
  {
    if order != [] {
      var fns' := fns[order[0] := SelectState(fns[order[0]], None).0];
      assert forall k :: 0 <= k < |order[1..]| ==> order[1..][k] == order[k + 1];
      RevertManyEffect(fns', order[1..]);
      assert forall i :: i in order <==> i == order[0] || i in order[1..];
    }
  }

  /** One turn of the revert loop. */
  lemma RevertManyStep(fns: seq<FnInfo>, order: seq<nat>)
    requires order != [] && forall k :: 0 <= k < |order| ==> order[k] < |fns|
    ensures var fns' := fns[order[0] := SelectState(fns[order[0]], None).0];
      && (forall k :: 0 <= k < |order[1..]| ==> order[1..][k] < |fns'|)
      && RevertMany(fns, order) ==
         (RevertMany(fns', order[1..]).0, SelectState(fns[order[0]], None).1 + RevertMany(fns', order[1..]).1)
  {
    var fns' := fns[order[0] := SelectState(fns[order[0]], None).0];
    assert forall k :: 0 <= k < |order[1..]| ==> order[1..][k] == order[k + 1];
    var rest := RevertMany(fns', order[1..]);
    assert RevertMany(fns, order) == (rest.0, SelectState(fns[order[0]], None).1 + rest.1);
  }

  /** RevertManyStep for the suffix of order from position k, as the loops use it. */
  lemma RevertManyAt(fns: seq<FnInfo>, order: seq<nat>, k: nat)
    requires k < |order| && forall j :: 0 <= j < |order| ==> order[j] < |fns|
    ensures var fns' := fns[order[k] := SelectState(fns[order[k]], None).0];
      && RevertMany(fns, order[k..]).0 == RevertMany(fns', order[k + 1..]).0
      && RevertMany(fns, order[k..]).1 == SelectState(fns[order[k]], None).1 + RevertMany(fns', order[k + 1..]).1
  {
    assert forall j :: 0 <= j < |order[k..]| ==> order[k..][j] == order[k + j];
    assert order[k..][0] == order[k] && order[k..][1..] == order[k + 1..];
    RevertManyStep(fns, order[k..]);
  }

  /** Where the loops stop: nothing left to revert. */
  lemma RevertManyDone(fns: seq<FnInfo>, order: seq<nat>, k: nat)
    requires k == |order|
    ensures RevertMany(fns, order[k..]).0 == fns
    ensures RevertMany(fns, order[k..]).1 == 0
  {
    assert order[k..] == [];
  }

  // ---------------------------------------------------------------- what the loops submit and decode

  /** What __multiverse_commit_fn submits for function i: the batch built from
      the prepared descriptor and its target when it reports a change, else nothing. */
  function CommitBatch(arch: Arch, i: nat, f: FnInfo, vars: seq<VarInfo>, mem: Memory): (r: seq<Batch>)
    requires WfFn(f) && Readable(f, vars)
    ensures |r| == CommitFnState(f, vars, mem).1
  {
    var p := Prepared(f, mem);
    var t := CommitTarget(f, vars, mem);
    assert t.Some? ==> t.value < |p.mvFunctions|;
    if CommitFnState(f, vars, mem).1 == 1 then [BatchFor(arch, i, p, t)] else []
  }

  /** The decode __multiverse_commit_fn logs for function i: one exactly when a
      pointer-mode change is forced. */
  function CommitDecode(i: nat, f: FnInfo, mem: Memory): seq<nat>
    requires WfFn(f)
  {
    if f.IsFnPtr() && DecodeForced(f, mem) then [i] else []
  }

  /** The batches the commit loop submits, in visiting order. */
  function CommitBatches(arch: Arch, fns: seq<FnInfo>, vars: seq<VarInfo>, mem: Memory, order: seq<nat>): seq<Batch>
    requires AllWf(fns) && ReadableAt(fns, vars, order)
    decreases |order|
  {
    if order == [] then []
    else
      var fns' := fns[order[0] := CommitFnState(fns[order[0]], vars, mem).0];
      CommitManyStep'(fns, vars, mem, order);
      CommitBatch(arch, order[0], fns[order[0]], vars, mem) + CommitBatches(arch, fns', vars, mem, order[1..])
  }

  /** The synthetic variants the commit loop decodes, in visiting order. */
  function CommitDecodes(fns: seq<FnInfo>, vars: seq<VarInfo>, mem: Memory, order: seq<nat>): seq<nat>
    requires AllWf(fns) && ReadableAt(fns, vars, order)
    decreases |order|
  {
    if order == [] then []
    else
      var fns' := fns[order[0] := CommitFnState(fns[order[0]], vars, mem).0];
      CommitManyStep'(fns, vars, mem, order);
      CommitDecode(order[0], fns[order[0]], mem) + CommitDecodes(fns', vars, mem, order[1..])
  }

  /** The commit loop submits exactly one batch per change it counts. */
  lemma {:induction false} CommitBatchesCount(arch: Arch, fns: seq<FnInfo>, vars: seq<VarInfo>, mem: Memory, order: seq<nat>)
    requires AllWf(fns) && ReadableAt(fns, vars, order)
    ensures |CommitBatches(arch, fns, vars, mem, order)| == CommitMany(fns, vars, mem, order).1
    decreases |order|
  {
    if order != [] {
      var fns' := fns[order[0] := CommitFnState(fns[order[0]], vars, mem).0];
      CommitManyStep(fns, vars, mem, order);
      CommitBatchesCount(arch, fns', vars, mem, order[1..]);
    }
  }

  /** Every decode comes with a reported change, so the commit loop decodes
      no more synthetic variants than it counts changes. */
  lemma {:induction false} CommitDecodesBound(fns: seq<FnInfo>, vars: seq<VarInfo>, mem: Memory, order: seq<nat>)
    requires AllWf(fns) && ReadableAt(fns, vars, order)
    ensures |CommitDecodes(fns, vars, mem, order)| <= CommitMany(fns, vars, mem, order).1
    decreases |order|
  {
    if order != [] {
      var i := order[0];
      var fns' := fns[i := CommitFnState(fns[i], vars, mem).0];
      CommitManyStep'(fns, vars, mem, order);
      CommitDecodesBound(fns', vars, mem, order[1..]);
      if fns[i].IsFnPtr() {
        FnPtrCommit(fns[i], vars, mem);
      }
    }
  }

  /** Every decode is of a pointer-mode function the loop visits. */
  lemma {:induction false} CommitDecodesVisited(fns: seq<FnInfo>, vars: seq<VarInfo>, mem: Memory, order: seq<nat>)
    requires AllWf(fns) && ReadableAt(fns, vars, order)
    ensures forall x :: x in CommitDecodes(fns, vars, mem, order) ==> x in order && x < |fns| && fns[x].IsFnPtr()
    decreases |order|
  {
    if order != [] {
      var i := order[0];
      var fns' := fns[i := CommitFnState(fns[i], vars, mem).0];
      CommitManyStep'(fns, vars, mem, order);
      CommitDecodesVisited(fns', vars, mem, order[1..]);
      var d1 := CommitDecode(i, fns[i], mem);
      var d' := CommitDecodes(fns', vars, mem, order[1..]);
      assert CommitDecodes(fns, vars, mem, order) == d1 + d';
      forall x | x in d' ensures x in order && x < |fns| && fns[x].IsFnPtr() {
        assert x in order[1..] && fns'[x].nMvFunctions == fns[x].nMvFunctions;
      }
    }
  }

  /** The revert loop's counterpart of CommitBatch: select(fn, NULL) submits
      the revert batch exactly when something is active. */
  function RevertBatch(arch: Arch, i: nat, f: FnInfo): (r: seq<Batch>)
    ensures |r| == SelectState(f, None).1
  {
    if f.active.Some? then [BatchFor(arch, i, f, None)] else []
  }

  /** The batches the revert loop submits, in visiting order. */
  function RevertBatches(arch: Arch, fns: seq<FnInfo>, order: seq<nat>): seq<Batch>
    requires forall k :: 0 <= k < |order| ==> order[k] < |fns|
    decreases |order|
  {
    if order == [] then []
    else
      var fns' := fns[order[0] := SelectState(fns[order[0]], None).0];
      RevertBatch(arch, order[0], fns[order[0]]) + RevertBatches(arch, fns', order[1..])
  }

  /** The revert loop submits exactly one batch per change it counts. */
  lemma {:induction false} RevertBatchesCount(arch: Arch, fns: seq<FnInfo>, order: seq<nat>)
    requires forall k :: 0 <= k < |order| ==> order[k] < |fns|
    ensures |RevertBatches(arch, fns, order)| == RevertMany(fns, order).1
    decreases |order|
  {
    if order != [] {
      var fns' := fns[order[0] := SelectState(fns[order[0]], None).0];
      RevertManyStep(fns, order);
      RevertBatchesCount(arch, fns', order[1..]);
    }
  }

  /** With hooks that keep their length contract, a batch's records are well
      formed and its size is the length of its flat buffer. */
  lemma BatchForSize(arch: Arch, i: nat, f: FnInfo, target: Option<nat>)
    requires ArchValid(arch) && (target.Some? ==> target.value < |f.mvFunctions|)
    ensures var b := BatchFor(arch, i, f, target);
      && b.fn == i && b.activeBefore == f.active
      && (forall p :: p in b.patches ==> |p.data| == p.len)
      && b.size == |Serialize(b.patches)|
  {
    var ps := PatchSet(arch, f, TargetVariant(f, target), f.patchpoints);
    PatchSetWellFormed(arch, f, TargetVariant(f, target), f.patchpoints);
    SerializeSize(ps);
  }

  /** Appending to a log in two steps or in one gives the same log. */
  lemma AppendAssoc<T>(a: seq<T>, b: seq<T>, c: seq<T>)
    ensures a + (b + c) == (a + b) + c
  {
  }

  /** The commit loop's batches and decodes from position k: those of one commit, then the rest. */
  lemma CommitLogAt(arch: Arch, fns: seq<FnInfo>, vars: seq<VarInfo>, mem: Memory, order: seq<nat>, k: nat)
    requires k < |order| && AllWf(fns) && ReadableAt(fns, vars, order[k..])
    ensures order[k] < |fns| && Readable(fns[order[k]], vars)
    ensures var fns' := fns[order[k] := CommitFnState(fns[order[k]], vars, mem).0];
      && AllWf(fns')
      && ReadableAt(fns', vars, order[k + 1..])
      && CommitBatches(arch, fns, vars, mem, order[k..]) ==
         CommitBatch(arch, order[k], fns[order[k]], vars, mem) + CommitBatches(arch, fns', vars, mem, order[k + 1..])
      && CommitDecodes(fns, vars, mem, order[k..]) ==
         CommitDecode(order[k], fns[order[k]], mem) + CommitDecodes(fns', vars, mem, order[k + 1..])
  {
    assert order[k..][0] == order[k] && order[k..][1..] == order[k + 1..];
    CommitManyStep'(fns, vars, mem, order[k..]);
  }

  /** The revert loop's batches from position k: those of one revert, then the rest. */
  lemma RevertLogAt(arch: Arch, fns: seq<FnInfo>, order: seq<nat>, k: nat)
    requires k < |order| && forall j :: 0 <= j < |order| ==> order[j] < |fns|
    ensures var fns' := fns[order[k] := SelectState(fns[order[k]], None).0];
      RevertBatches(arch, fns, order[k..]) == RevertBatch(arch, order[k], fns[order[k]]) + RevertBatches(arch, fns', order[k + 1..])
  {
    assert forall j :: 0 <= j < |order[k..]| ==> order[k..][j] == order[k + j];
    assert order[k..][0] == order[k] && order[k..][1..] == order[k + 1..];
  }

  /** lo, lo + 1, ..., hi - 1: the registry order of the global loops. */
  function Range(lo: nat, hi: nat): (r: seq<nat>)
    ensures |r| == if lo <= hi then hi - lo else 0
    ensures forall k :: 0 <= k < |r| ==> r[k] == lo + k
    decreases hi - lo
  {
    if lo >= hi then [] else [lo] + Range(lo + 1, hi)
  }

  /** Number of descriptors with an active variant. */
  function NumActive(fns: seq<FnInfo>): nat
    decreases |fns|
  {
    if fns == [] then 0 else (if fns[0].active.Some? then 1 else 0) + NumActive(fns[1..])
  }

  /** The global revert returns the number of functions that had an active variant. */
  lemma {:induction false} RevertRangeCount(fns: seq<FnInfo>, k: nat)
    requires k <= |fns|
    ensures RevertMany(fns, Range(k, |fns|)).1 == NumActive(fns[k..])
    decreases |fns| - k
  {
    if k < |fns| {
      var order := Range(k, |fns|);
      assert order[0] == k && order[1..] == Range(k + 1, |fns|);
      var fns' := fns[k := fns[k].(active := None)];
      RevertRangeCount(fns', k + 1);
      assert fns'[k + 1..] == fns[k + 1..];
      assert fns[k..][1..] == fns[k + 1..];
    }
  }

  /** No active variant anywhere: NumActive is 0. */
  lemma {:induction false} NumActiveZero(fns: seq<FnInfo>)
    requires forall i :: 0 <= i < |fns| ==> fns[i].active.None?
    ensures NumActive(fns) == 0
    decreases |fns|
  {
    if fns != [] {
      var t := fns[1..];
      assert forall i :: 0 <= i < |t| ==> t[i] == fns[i + 1];
      NumActiveZero(t);
    }
  }

  /** The global revert clears every active variant; a second one reports 0 and changes nothing. */
  lemma RevertAllIdempotent(fns: seq<FnInfo>)
    ensures var g := RevertMany(fns, Range(0, |fns|)).0;
      && (forall i :: 0 <= i < |g| ==> g[i] == fns[i].(active := None))
      && RevertMany(g, Range(0, |g|)) == (g, 0)
  {
    var order := Range(0, |fns|);
    forall i | 0 <= i < |fns| ensures i in order {
      assert order[i] == i;
    }
    RevertManyEffect(fns, order);
    var g := RevertMany(fns, order).0;
    RevertManyEffect(g, order);
    RevertRangeCount(g, 0);
    NumActiveZero(g);
    assert g[0..] == g;
    var r := RevertMany(g, Range(0, |g|));
    assert r.0 == g;
  }

  /** Every descriptor is well formed and safe to select for. */
  ghost predicate AllReady(fns: seq<FnInfo>, vars: seq<VarInfo>) {
    forall i :: 0 <= i < |fns| ==> WfFn(fns[i]) && Readable(fns[i], vars)
  }

  /** Sum of the per-function change flags. */
  function NumChanged(fns: seq<FnInfo>, vars: seq<VarInfo>, mem: Memory): nat
    requires AllReady(fns, vars)
    decreases |fns|
  {
    if fns == [] then 0
    else CommitFnState(fns[0], vars, mem).1 as nat + NumChanged(fns[1..], vars, mem)
  }

  /** Replacing a descriptor by its committed form keeps the registry ready. */
  lemma ReadyUpdate(fns: seq<FnInfo>, vars: seq<VarInfo>, mem: Memory, k: nat)
    requires k < |fns| && AllReady(fns, vars)
    ensures AllReady(fns[k := CommitFnState(fns[k], vars, mem).0], vars)
  {
    var fns' := fns[k := CommitFnState(fns[k], vars, mem).0];
    forall i | 0 <= i < |fns'| ensures WfFn(fns'[i]) && Readable(fns'[i], vars) {
      if i != k {
        assert fns'[i] == fns[i];
      }
    }
  }

  /** CommitManyStep for an order written as its first index and the rest. */
  lemma CommitManyCons(fns: seq<FnInfo>, vars: seq<VarInfo>, mem: Memory, k: nat, rest: seq<nat>)
    requires AllWf(fns) && ReadableAt(fns, vars, [k] + rest)
    ensures k < |fns| && Readable(fns[k], vars)
    ensures var fns' := fns[k := CommitFnState(fns[k], vars, mem).0];
      && AllWf(fns')
      && ReadableAt(fns', vars, rest)
      && CommitMany(fns, vars, mem, [k] + rest).0 == CommitMany(fns', vars, mem, rest).0
      && CommitMany(fns, vars, mem, [k] + rest).1 == CommitFnState(fns[k], vars, mem).1 + CommitMany(fns', vars, mem, rest).1
  {
    var order := [k] + rest;
    assert order[0] == k && order[1..] == rest;
    CommitManyStep(fns, vars, mem, order);
  }

  /** Committing function k of a ready registry leaves it ready, and the loop
      from k is one commit followed by the loop from k + 1. */
  lemma CommitRangeStep(fns: seq<FnInfo>, vars: seq<VarInfo>, mem: Memory, k: nat)
    requires k < |fns| && AllReady(fns, vars)
    ensures AllWf(fns) && ReadableAt(fns, vars, Range(k, |fns|))
    ensures var fns' := fns[k := CommitFnState(fns[k], vars, mem).0];
      && AllReady(fns', vars)
      && CommitMany(fns, vars, mem, Range(k, |fns|)).0 == CommitMany(fns', vars, mem, Range(k + 1, |fns|)).0
      && CommitMany(fns, vars, mem, Range(k, |fns|)).1 ==
         CommitFnState(fns[k], vars, mem).1 + CommitMany(fns', vars, mem, Range(k + 1, |fns|)).1
  {
    assert Range(k, |fns|) == [k] + Range(k + 1, |fns|);
    ReadyUpdate(fns, vars, mem, k);
    CommitManyCons(fns, vars, mem, k, Range(k + 1, |fns|));
  }

  /** The global commit leaves every function from k on as its own commit leaves it. */
  lemma {:induction false} CommitRangeFns(fns: seq<FnInfo>, vars: seq<VarInfo>, mem: Memory, k: nat)
    requires k <= |fns| && AllReady(fns, vars)
    ensures AllWf(fns) && ReadableAt(fns, vars, Range(k, |fns|))
    ensures var r := CommitMany(fns, vars, mem, Range(k, |fns|));
      forall i :: k <= i < |fns| ==> r.0[i] == CommitFnState(fns[i], vars, mem).0
    decreases |fns| - k
  {
    if k < |fns| {
      CommitRangeStep(fns, vars, mem, k);
      var fns' := fns[k := CommitFnState(fns[k], vars, mem).0];
      var rest := Range(k + 1, |fns|);
      CommitRangeFns(fns', vars, mem, k + 1);
      var r' := CommitMany(fns', vars, mem, rest);
      assert r'.0[k] == fns'[k] by {
        CommitManyFrame(fns', vars, mem, rest);
        assert k !in rest;
      }
      forall i | k <= i < |fns| ensures r'.0[i] == CommitFnState(fns[i], vars, mem).0 {
        if i > k {
          assert fns'[i] == fns[i];
        }
      }
    } else {
      assert Range(k, |fns|) == [];
    }
  }

  /** The global commit returns the number of functions whose commit changed something. */
  lemma {:induction false} CommitRangeCount(fns: seq<FnInfo>, vars: seq<VarInfo>, mem: Memory, k: nat)
    requires k <= |fns| && AllReady(fns, vars)
    ensures AllWf(fns) && ReadableAt(fns, vars, Range(k, |fns|))
    ensures CommitMany(fns, vars, mem, Range(k, |fns|)).1 == NumChanged(fns[k..], vars, mem)
    decreases |fns| - k
  {
    if k < |fns| {
      CommitRangeStep(fns, vars, mem, k);
      var fns' := fns[k := CommitFnState(fns[k], vars, mem).0];
      CommitRangeCount(fns', vars, mem, k + 1);
      assert fns'[k + 1..] == fns[k + 1..];
      assert fns[k..][0] == fns[k] && fns[k..][1..] == fns[k + 1..];
    } else {
      assert Range(k, |fns|) == [];
    }
  }

  /** NumChanged is 0 when no function's commit reports a change. */
  lemma {:induction false} NumChangedZero(fns: seq<FnInfo>, vars: seq<VarInfo>, mem: Memory)
    requires AllReady(fns, vars)
    requires forall i :: 0 <= i < |fns| ==> CommitFnState(fns[i], vars, mem).1 == 0
    ensures NumChanged(fns, vars, mem) == 0
    decreases |fns|
  {
    if fns != [] {
      var t := fns[1..];
      assert forall i :: 0 <= i < |t| ==> t[i] == fns[i + 1];
      NumChangedZero(t, vars, mem);
    }
  }

  /** A second global commit with the same variables and memory reports 0 and changes nothing. */
  lemma CommitAllIdempotent(fns: seq<FnInfo>, vars: seq<VarInfo>, mem: Memory)
    requires AllReady(fns, vars)
    ensures AllWf(fns) && ReadableAt(fns, vars, Range(0, |fns|))
    ensures var g := CommitMany(fns, vars, mem, Range(0, |fns|)).0;
      && AllReady(g, vars)
      && CommitMany(g, vars, mem, Range(0, |g|)) == (g, 0)
  {
    CommitRangeFns(fns, vars, mem, 0);
    var g := CommitMany(fns, vars, mem, Range(0, |fns|)).0;
    assert AllReady(g, vars);
    forall i | 0 <= i < |g| ensures CommitFnState(g[i], vars, mem) == (g[i], 0) {
      CommitIdempotent(fns[i], vars, mem);
    }
    CommitRangeFns(g, vars, mem, 0);
    CommitRangeCount(g, vars, mem, 0);
    NumChangedZero(g, vars, mem);
    assert g[0..] == g;
    var r := CommitMany(g, vars, mem, Range(0, |g|));
    assert r.0 == g;
  }

  /** A second global commit with the same variables and memory submits no
      batch and decodes no synthetic variant. */
  lemma CommitAllQuiet(arch: Arch, fns: seq<FnInfo>, vars: seq<VarInfo>, mem: Memory)
    requires AllReady(fns, vars)
    ensures AllWf(fns) && ReadableAt(fns, vars, Range(0, |fns|))
    ensures var g := CommitMany(fns, vars, mem, Range(0, |fns|)).0;
      && AllWf(g) && ReadableAt(g, vars, Range(0, |g|))
      && CommitBatches(arch, g, vars, mem, Range(0, |g|)) == []
      && CommitDecodes(g, vars, mem, Range(0, |g|)) == []
  {
    CommitAllIdempotent(fns, vars, mem);
    var g := CommitMany(fns, vars, mem, Range(0, |fns|)).0;
    CommitRangeFns(g, vars, mem, 0);
    CommitBatchesCount(arch, g, vars, mem, Range(0, |g|));
    CommitDecodesBound(g, vars, mem, Range(0, |g|));
  }

  // ---------------------------------------------------------------- bind

  /** multiverse_bind on a known variable: the new descriptor and the result. */
  function BindSpec(v: VarInfo, state: int): (r: (VarInfo, int))
    ensures r.0 == v.(bound := r.0.bound)
    ensures r.1 == -1 <==> state >= 0 && !v.tracked
    ensures r.1 != -1 ==> r.1 == if r.0.bound then 1 else 0
    ensures state < 0 || !v.tracked ==> r.0 == v
    ensures state >= 0 && v.tracked ==> r.0.bound == (state != 0)
  {
    if state >= 0 then
      if !v.tracked then (v, -1) else (v.(bound := state != 0), if state != 0 then 1 else 0)
    else (v, if v.bound then 1 else 0)
  }

  /** Binding twice with the same state is binding once. */
  lemma BindIdempotent(v: VarInfo, state: int)
    ensures BindSpec(BindSpec(v, state).0, state) == BindSpec(v, state)
  {
  }

  /** After bind(x, 0) no variant with an assignment on x can be selected. */
  lemma UnbindExcludes(variants: seq<Variant>, vars: seq<VarInfo>, mem: Memory, x: nat)
    requires x < |vars| && vars[x].tracked
    requires AllReadable(variants, vars[x := BindSpec(vars[x], 0).0])
    ensures var vars' := vars[x := BindSpec(vars[x], 0).0];
      var r := SelectLast(variants, vars', mem);
      r.Some? ==> forall k :: 0 <= k < |variants[r.value].assignments| ==>
        variants[r.value].assignments[k].variable != x
  {
    UnboundNeverSelected(variants, vars[x := BindSpec(vars[x], 0).0], mem, x);
  }

  /** After bind(x, 1), a variant whose assignments on x hold for x's current
      value and whose other assignments already held is a candidate again. */
  lemma {:induction false} RebindAdmits(m: Variant, vars: seq<VarInfo>, mem: Memory, x: nat, state: int)
    requires x < |vars| && vars[x].tracked && state > 0 && ValidWidth(vars[x].width)
    requires VariantReadable(m, vars)
    requires forall k :: 0 <= k < |m.assignments| && m.assignments[k].variable == x ==>
      m.assignments[k].lowerBound <= VarRead(vars[x], mem) <= m.assignments[k].upperBound
    requires forall k :: 0 <= k < |m.assignments| && m.assignments[k].variable != x ==>
      Holds(m.assignments[k], vars, mem)
    ensures var vars' := vars[x := BindSpec(vars[x], state).0];
      VariantReadable(m, vars') && Candidate(m, vars', mem)
  {
    var vars' := vars[x := BindSpec(vars[x], state).0];
    assert vars'[x] == vars[x].(bound := true);
    forall k | 0 <= k < |m.assignments|
      ensures m.assignments[k].variable < |vars'|
      ensures vars'[m.assignments[k].variable].bound ==> ValidWidth(vars'[m.assignments[k].variable].width)
    {
    }
    forall k | 0 <= k < |m.assignments| ensures Holds(m.assignments[k], vars', mem) {
      var y := m.assignments[k].variable;
      if y == x {
        assert VarRead(vars'[x], mem) == VarRead(vars[x], mem);
      } else {
        assert vars'[y] == vars[y];
      }
    }
  }

  // ---------------------------------------------------------------- a worked example

  /** A 4-byte variable config_A and a function foo with variants for the values 0 and 1. */
  function ConfigA(loc: Addr): VarInfo { VarInfo(loc, 4, true, true, [0]) }

  function Foo(body: Addr, v0: Addr, v1: Addr): FnInfo {
    FnInfo(body, 2, [Variant(v0, [Assignment(0, 0, 0)]), Variant(v1, [Assignment(0, 1, 1)])], [], None)
  }

  /**
   * With config_A = 1 committing foo activates the second variant, with
   * config_A = 0 the first, each time reporting a change; reverting reports a
   * change once and then none.
   */
  lemma ConfigAScenario(mem: Memory, loc: Addr, body: Addr, v0: Addr, v1: Addr)
    ensures var vars, foo := [ConfigA(loc)], Foo(body, v0, v1);
      var m1 := StoreLE(mem, loc, 4, 1);
      var m0 := StoreLE(m1, loc, 4, 0);
      && WfFn(foo) && Readable(foo, vars)
      && CommitFnState(foo, vars, m1) == (foo.(active := Some(1)), 1)
      && CommitFnState(foo.(active := Some(1)), vars, m0) == (foo.(active := Some(0)), 1)
      && SelectState(foo.(active := Some(0)), None) == (foo, 1)
      && SelectState(foo, None) == (foo, 0)
  {
    var vars, foo := [ConfigA(loc)], Foo(body, v0, v1);
    var m1 := StoreLE(mem, loc, 4, 1);
    var m0 := StoreLE(m1, loc, 4, 0);
    VarReadAfterStore(vars[0], mem, 1);
    VarReadAfterStore(vars[0], m1, 0);
    var a0, a1 := foo.mvFunctions[0], foo.mvFunctions[1];
    assert Candidate(a1, vars, m1);
    assert !Candidate(a1, vars, m0) by {
      assert !Holds(a1.assignments[0], vars, m0);
    }
    assert Candidate(a0, vars, m0);
    assert SelectLast(foo.mvFunctions, vars, m1) == Some(1);
    assert foo.mvFunctions[..1] == [a0];
    assert SelectLast(foo.mvFunctions, vars, m0) == Some(0);
  }
}
