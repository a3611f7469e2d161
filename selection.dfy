/**
 * Reading a tracked variable and choosing a function's variant: the last
 * variant in declaration order whose every range assignment is on a bound
 * variable whose current value lies in the inclusive range.
 */
module Selection {
  import opened Wrappers
  import opened Bytes
  import opened Descriptors

  /** multiverse_var_read: the variable's storage read as an unsigned value of its width. */
  function VarRead(v: VarInfo, mem: Memory): (r: nat)
    requires ValidWidth(v.width)
    ensures r < Pow256(v.width)
    ensures v.width == 1 ==> r < 0x100
    ensures v.width == 2 ==> r < 0x1_0000
    ensures v.width == 4 ==> r < 0x1_0000_0000
  {
    LoadLEBound(mem, v.location, v.width);
    LoadLE(mem, v.location, v.width)
  }

  /** Storing a value that fits the width and reading it back gives that value. */
  lemma VarReadAfterStore(v: VarInfo, mem: Memory, x: nat)
    requires ValidWidth(v.width) && x < Pow256(v.width)
    ensures VarRead(v, StoreLE(mem, v.location, v.width, x)) == x
  {
    LoadAfterStore(mem, v.location, v.width, x);
  }

  /** One range assignment holds: its variable is bound and its value is in range. */
  predicate Holds(a: Assignment, vars: seq<VarInfo>, mem: Memory)
    requires a.variable < |vars|
    requires vars[a.variable].bound ==> ValidWidth(vars[a.variable].width)
  {
    vars[a.variable].bound &&
    a.lowerBound <= VarRead(vars[a.variable], mem) <= a.upperBound
  }

  /** A variant is a candidate when all of its assignments hold. */
  predicate Candidate(m: Variant, vars: seq<VarInfo>, mem: Memory)
    requires VariantReadable(m, vars)
  {
    forall k :: 0 <= k < |m.assignments| ==> Holds(m.assignments[k], vars, mem)
  }

  /** The index of the last candidate, None when there is none. */
  function SelectLast(variants: seq<Variant>, vars: seq<VarInfo>, mem: Memory): (r: Option<nat>)
    requires AllReadable(variants, vars)
    ensures r.Some? ==> r.value < |variants|
    decreases |variants|
  {
    if variants == [] then None
    else if Candidate(variants[|variants| - 1], vars, mem) then Some(|variants| - 1)
    else SelectLast(variants[..|variants| - 1], vars, mem)
  }

  /** SelectLast finds a candidate with no candidate after it, and finds
      nothing exactly when there is no candidate at all. */
  lemma {:induction false} SelectLastSpec(variants: seq<Variant>, vars: seq<VarInfo>, mem: Memory)
    requires AllReadable(variants, vars)
    ensures var r := SelectLast(variants, vars, mem);
      && (r.Some? ==> Candidate(variants[r.value], vars, mem))
      && (r.Some? ==> forall j :: r.value < j < |variants| ==> !Candidate(variants[j], vars, mem))
      && (r.None? <==> forall j :: 0 <= j < |variants| ==> !Candidate(variants[j], vars, mem))
    decreases |variants|
  {
    if variants != [] {
      var n := |variants| - 1;
      var init := variants[..n];
      if !Candidate(variants[n], vars, mem) {
        SelectLastSpec(init, vars, mem);
        assert forall j :: 0 <= j < n ==> init[j] == variants[j];
      }
    }
  }

  /**
   * The selector loop of __multiverse_commit_fn: every variant is checked
   * against every assignment (no early exit) and a later candidate overrides
   * an earlier one.
   */
  method BestVariant(variants: seq<Variant>, vars: seq<VarInfo>, mem: Memory) returns (best: Option<nat>)
    requires AllReadable(variants, vars)
    ensures best == SelectLast(variants, vars, mem)
  {
    best := None;
    var f := 0;
    while f < |variants|
      invariant 0 <= f <= |variants|
      invariant best == SelectLast(variants[..f], vars, mem)
    {
      var m := variants[f];
      var good := true;
      var a := 0;
      while a < |m.assignments|
        invariant 0 <= a <= |m.assignments|
        invariant good <==> forall k :: 0 <= k < a ==> Holds(m.assignments[k], vars, mem)
      {
        var assign := m.assignments[a];
        if !vars[assign.variable].bound {
          good := false;
        } else {
          var cur := VarRead(vars[assign.variable], mem);
          if cur > assign.upperBound || cur < assign.lowerBound {
            good := false;
          }
        }
        a := a + 1;
      }
      assert variants[..f + 1][..f] == variants[..f];
      if good {
        best := Some(f);
      }
      f := f + 1;
    }
    assert variants[..f] == variants;
  }

  /** A variant with an assignment on an unbound variable is never a candidate. */
  lemma UnboundExcludes(m: Variant, vars: seq<VarInfo>, mem: Memory, k: nat)
    requires VariantReadable(m, vars)
    requires k < |m.assignments| && !vars[m.assignments[k].variable].bound
    ensures !Candidate(m, vars, mem)
  {
    assert !Holds(m.assignments[k], vars, mem);
  }

  /** Hence selection never lands on a variant that depends on an unbound variable. */
  lemma UnboundNeverSelected(variants: seq<Variant>, vars: seq<VarInfo>, mem: Memory, x: nat)
    requires AllReadable(variants, vars)
    requires x < |vars| && !vars[x].bound
    ensures var r := SelectLast(variants, vars, mem);
      r.Some? ==> forall k :: 0 <= k < |variants[r.value].assignments| ==>
        variants[r.value].assignments[k].variable != x
  {
    SelectLastSpec(variants, vars, mem);
  }
}
