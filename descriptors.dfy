/**
 * The descriptor registry: variables, range assignments, variants,
 * patch points and functions, as the build-time instrumentation lays
 * them out. Raw pointers between descriptors become indices.
 */
module Descriptors {
  import opened Wrappers
  import opened Bytes

  /** A tracked global: where it lives, how wide it is, its two flags, and the
      functions that reference it (the functions_head list). */
  datatype VarInfo = VarInfo(
    location: Addr,
    width: nat,
    tracked: bool,
    bound: bool,
    functions: seq<nat>)

  /** A variant is usable only if variable's value lies in [lowerBound, upperBound]. */
  datatype Assignment = Assignment(variable: nat, lowerBound: nat, upperBound: nat)

  /** One specialised body (an mv_info_mvfn). */
  datatype Variant = Variant(functionBody: Addr, assignments: seq<Assignment>)

  /** A call or branch site to rewrite; isInvalid stands for type == PP_TYPE_INVALID. */
  datatype PatchPoint = PatchPoint(isInvalid: bool, location: Addr)

  /** The value of n_mv_functions that marks a multiversed function pointer. */
  const FnPtrSentinel: int := -1

  /**
   * A multiversioned function (an mv_info_fn). In function-pointer mode
   * functionBody is the address of the pointer variable and mvFunctions is
   * empty (mv_functions == NULL) or holds the one synthetic variant.
   * active is the index of the active variant in mvFunctions, None for NULL.
   */
  datatype FnInfo = FnInfo(
    functionBody: Addr,
    nMvFunctions: int,
    mvFunctions: seq<Variant>,
    patchpoints: seq<PatchPoint>,
    active: Option<nat>)
  {
    predicate IsFnPtr() { nMvFunctions == FnPtrSentinel }
  }

  /** The shape the instrumentation guarantees for one function descriptor.
      That every assignment names a variable is part of Readable below. */
  ghost predicate WfFn(f: FnInfo) {
    && (f.IsFnPtr() || f.nMvFunctions == |f.mvFunctions|)
    && (f.active.Some? ==> f.active.value < |f.mvFunctions|)
    && (f.IsFnPtr() ==> |f.mvFunctions| <= 1 && (|f.mvFunctions| == 1 ==> f.mvFunctions[0].assignments == []))
  }

  /** Every function is well formed and every back-reference names a function. */
  ghost predicate WfRegistry(fns: seq<FnInfo>, vars: seq<VarInfo>) {
    && (forall i :: 0 <= i < |fns| ==> WfFn(fns[i]))
    && (forall v, k :: 0 <= v < |vars| && 0 <= k < |vars[v].functions| ==> vars[v].functions[k] < |fns|)
  }

  /** Replacing one well-formed function descriptor keeps the registry well formed. */
  lemma RegistryUpdate(fns: seq<FnInfo>, vars: seq<VarInfo>, i: nat, f: FnInfo)
    requires WfRegistry(fns, vars) && i < |fns| && WfFn(f)
    ensures WfRegistry(fns[i := f], vars)
  {
    var fns' := fns[i := f];
    forall j | 0 <= j < |fns'| ensures WfFn(fns'[j]) {
      if j != i {
        assert fns'[j] == fns[j];
      }
    }
  }

  /** Widths multiverse_var_read accepts: sizeof(unsigned char/short/int). */
  predicate ValidWidth(w: nat) { w == 1 || w == 2 || w == 4 }

  /** The selector can read every bound variable this variant names: each
      assignment names a variable, and a bound one has a valid width. */
  ghost predicate VariantReadable(m: Variant, vars: seq<VarInfo>) {
    forall k :: 0 <= k < |m.assignments| ==>
      m.assignments[k].variable < |vars| &&
      (vars[m.assignments[k].variable].bound ==> ValidWidth(vars[m.assignments[k].variable].width))
  }

  ghost predicate AllReadable(variants: seq<Variant>, vars: seq<VarInfo>) {
    forall j :: 0 <= j < |variants| ==> VariantReadable(variants[j], vars)
  }

  /** Selecting f's variant does not hit the fatal width assertion. */
  ghost predicate Readable(f: FnInfo, vars: seq<VarInfo>) {
    AllReadable(f.mvFunctions, vars)
  }
}
