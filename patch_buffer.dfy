/**
 * The patch buffer of multiverse_select_mvfn: one record per patchable
 * patch point, laid out back to back as struct patch { pos; len; data[] },
 * and the architecture hooks that fill it.
 */
module PatchBuffer {
  import opened Wrappers
  import opened Bytes
  import opened Descriptors

  /** sizeof(struct patch): an 8-byte pos and an 8-byte len; data[] adds nothing. */
  const HeaderSize: nat := 2 * WordSize

  /** One patch record: where to write, how many bytes, and the bytes. */
  datatype Patch = Patch(pos: Addr, len: nat, data: seq<byte>)

  /** The byte range [from, to) that switching a patch point touches. */
  datatype Extent = Extent(from: Addr, to: Addr)
  type PatchExtent = e: Extent | e.from <= e.to witness Extent(0, 0)

  /**
   * The architecture hooks, left uninterpreted: multiverse_arch_patchpoint_size,
   * multiverse_arch_patchpoint_apply (bytes that call the variant) and
   * multiverse_arch_patchpoint_revert (bytes of the original code).
   */
  datatype Arch = Arch(
    size: PatchPoint -> PatchExtent,
    apply: (FnInfo, Variant, PatchPoint) -> seq<byte>,
    revert: PatchPoint -> seq<byte>)

  /** The hooks' length contract: each writes exactly to - from bytes. */
  ghost predicate ArchValid(arch: Arch) {
    && (forall pp :: |arch.revert(pp)| == arch.size(pp).to - arch.size(pp).from)
    && (forall f, m, pp :: |arch.apply(f, m, pp)| == arch.size(pp).to - arch.size(pp).from)
  }

  /** A patch point is skipped when its type is invalid or its location is NULL. */
  predicate Patchable(pp: PatchPoint) {
    !pp.isInvalid && pp.location != NULL
  }

  /** The patchable points, in list order. */
  function PatchablePoints(pps: seq<PatchPoint>): (r: seq<PatchPoint>)
    ensures |r| <= |pps|
    ensures forall pp :: pp in r <==> pp in pps && Patchable(pp)
    decreases |pps|
  {
    if pps == [] then []
    else
      var init := PatchablePoints(pps[..|pps| - 1]);
      assert pps == pps[..|pps| - 1] + [pps[|pps| - 1]];
      if Patchable(pps[|pps| - 1]) then init + [pps[|pps| - 1]] else init
  }

  /** Filtering keeps order: the patchable points of a concatenation are concatenated. */
  lemma {:induction false} PatchablePointsAppend(a: seq<PatchPoint>, b: seq<PatchPoint>)
    ensures PatchablePoints(a + b) == PatchablePoints(a) + PatchablePoints(b)
    decreases |b|
  {
    if b == [] {
      assert a + b == a;
    } else {
      var b' := b[..|b| - 1];
      assert (a + b)[..|a + b| - 1] == a + b';
      PatchablePointsAppend(a, b');
    }
  }

  /** The record for one patchable point. */
  function RecordFor(arch: Arch, f: FnInfo, target: Option<Variant>, pp: PatchPoint): Patch {
    var e := arch.size(pp);
    Patch(pp.location, e.to - e.from,
          if target.None? then arch.revert(pp) else arch.apply(f, target.value, pp))
  }

  /** The records the loop at mv_commit.c:101-128 produces for a list of patch points. */
  function PatchSet(arch: Arch, f: FnInfo, target: Option<Variant>, pps: seq<PatchPoint>): seq<Patch>
    decreases |pps|
  {
    if pps == [] then []
    else
      var init := PatchSet(arch, f, target, pps[..|pps| - 1]);
      if Patchable(pps[|pps| - 1]) then init + [RecordFor(arch, f, target, pps[|pps| - 1])] else init
  }

  /**
   * What the patch set is: exactly one record per patchable point, in order,
   * at the point's location, as long as the point's extent, holding the
   * revert bytes for a NULL target and the apply bytes otherwise.
   */
  lemma {:induction false} PatchSetRecords(arch: Arch, f: FnInfo, target: Option<Variant>, pps: seq<PatchPoint>)
    ensures var ps, pts := PatchSet(arch, f, target, pps), PatchablePoints(pps);
      && |ps| == |pts|
      && forall j :: 0 <= j < |ps| ==>
           && ps[j].pos == pts[j].location
           && ps[j].len == arch.size(pts[j]).to - arch.size(pts[j]).from
           && ps[j].data == (if target.None? then arch.revert(pts[j]) else arch.apply(f, target.value, pts[j]))
    decreases |pps|
  {
    if pps != [] {
      PatchSetRecords(arch, f, target, pps[..|pps| - 1]);
    }
  }

  /** With hooks that keep their length contract every record is well formed. */
  lemma {:induction false} PatchSetWellFormed(arch: Arch, f: FnInfo, target: Option<Variant>, pps: seq<PatchPoint>)
    requires ArchValid(arch)
    ensures forall p :: p in PatchSet(arch, f, target, pps) ==> |p.data| == p.len
    decreases |pps|
  {
    if pps != [] {
      PatchSetWellFormed(arch, f, target, pps[..|pps| - 1]);
    }
  }

  /** Revert records depend only on the patch points: whatever variant was
      committed before, reverting writes the same bytes. */
  lemma {:induction false} RevertSetIndependent(arch: Arch, f1: FnInfo, f2: FnInfo, pps: seq<PatchPoint>)
    ensures PatchSet(arch, f1, None, pps) == PatchSet(arch, f2, None, pps)
    decreases |pps|
  {
    if pps != [] {
      RevertSetIndependent(arch, f1, f2, pps[..|pps| - 1]);
    }
  }

  /** patches_size: the sum over records of header plus payload length. */
  function BufferSize(ps: seq<Patch>): nat
    decreases |ps|
  {
    if ps == [] then 0 else HeaderSize + ps[0].len + BufferSize(ps[1..])
  }

  lemma {:induction false} BufferSizeAppend(ps: seq<Patch>, p: Patch)
    ensures BufferSize(ps + [p]) == BufferSize(ps) + HeaderSize + p.len
    decreases |ps|
  {
    if ps != [] {
      assert (ps + [p])[1..] == ps[1..] + [p];
      BufferSizeAppend(ps[1..], p);
    }
  }

  /** The flat buffer handed to the kernel: records back to back. */
  function Serialize(ps: seq<Patch>): seq<byte>
    decreases |ps|
  {
    if ps == [] then []
    else EncodeWord(ps[0].pos, WordSize) + EncodeWord(ps[0].len, WordSize) + ps[0].data + Serialize(ps[1..])
  }

  /** A record whose fields fit their C types and whose payload is len bytes long. */
  predicate RecordFits(p: Patch) {
    p.pos < Pow256(WordSize) && p.len < Pow256(WordSize) && |p.data| == p.len
  }

  /** The flat buffer's length is the accumulated patches_size. */
  lemma {:induction false} SerializeSize(ps: seq<Patch>)
    requires forall p :: p in ps ==> |p.data| == p.len
    ensures |Serialize(ps)| == BufferSize(ps)
    decreases |ps|
  {
    if ps != [] {
      assert forall p :: p in ps[1..] ==> p in ps;
      SerializeSize(ps[1..]);
    }
  }

  /**
   * Walks a flat buffer record by record, stepping header plus len bytes each
   * time, as the print loop at mv_commit.c:131-133 does; None if a record
   * runs past the end.
   */
  function Parse(buf: seq<byte>): Option<seq<Patch>>
    decreases |buf|
  {
    if buf == [] then Some([])
    else if |buf| < HeaderSize then None
    else
      var len := DecodeWord(buf[WordSize..HeaderSize]);
      if |buf| - HeaderSize < len then None
      else
        match Parse(buf[HeaderSize + len..])
        case None => None
        case Some(rest) =>
          Some([Patch(DecodeWord(buf[..WordSize]), len, buf[HeaderSize..HeaderSize + len])] + rest)
  }

  /** Parsing a buffer that starts with one well-formed record yields that
      record followed by whatever the rest of the buffer parses to. */
  lemma ParseRecord(ep: seq<byte>, el: seq<byte>, data: seq<byte>, tail: seq<byte>)
    requires |ep| == WordSize && |el| == WordSize && DecodeWord(el) == |data|
    ensures Parse(ep + el + data + tail) ==
      match Parse(tail)
      case None => None
      case Some(rest) => Some([Patch(DecodeWord(ep), |data|, data)] + rest)
  {
    var buf := ep + el + data + tail;
    assert buf[..WordSize] == ep;
    assert buf[WordSize..HeaderSize] == el;
    assert buf[HeaderSize..HeaderSize + |data|] == data;
    assert buf[HeaderSize + |data|..] == tail;
  }

  /** The buffer layout is unambiguous: parsing a serialized patch set gives it back. */
  lemma {:induction false} ParseSerialize(ps: seq<Patch>)
    requires forall p :: p in ps ==> RecordFits(p)
    ensures Parse(Serialize(ps)) == Some(ps)
    decreases |ps|
  {
    if ps != [] {
      var p := ps[0];
      assert ps == [p] + ps[1..];
      assert p in ps && RecordFits(p);
      var ep, el := EncodeWord(p.pos, WordSize), EncodeWord(p.len, WordSize);
      var tail := Serialize(ps[1..]);
      assert Serialize(ps) == ep + el + p.data + tail;
      DecodeEncodeWord(p.pos, WordSize);
      DecodeEncodeWord(p.len, WordSize);
      ParseRecord(ep, el, p.data, tail);
      assert forall q :: q in ps[1..] ==> q in ps;
      ParseSerialize(ps[1..]);
      assert Patch(DecodeWord(ep), |p.data|, p.data) == p;
    }
  }

  /**
   * The loop at mv_commit.c:101-128: skip invalid and NULL-located points,
   * append one record per remaining point, and accumulate patches_size.
   */
  method AssemblePatches(arch: Arch, f: FnInfo, target: Option<Variant>) returns (patches: seq<Patch>, size: nat)
    ensures patches == PatchSet(arch, f, target, f.patchpoints)
    ensures size == BufferSize(patches)
  {
    patches, size := [], 0;
    var k := 0;
    while k < |f.patchpoints|
      invariant 0 <= k <= |f.patchpoints|
      invariant patches == PatchSet(arch, f, target, f.patchpoints[..k])
      invariant size == BufferSize(patches)
    {
      var pp := f.patchpoints[k];
      assert f.patchpoints[..k + 1][..k] == f.patchpoints[..k];
      k := k + 1;
      if pp.isInvalid { continue; }
      if pp.location == NULL { continue; }
      var e := arch.size(pp);
      var dataLen := e.to - e.from;
      var curr := Patch(pp.location, dataLen,
                        if target.None? then arch.revert(pp) else arch.apply(f, target.value, pp));
      BufferSizeAppend(patches, curr);
      size := size + HeaderSize + dataLen;
      patches := patches + [curr];
    }
    assert f.patchpoints[..k] == f.patchpoints;
  }
}
