/**
 * The transaction context: a fixed 10-slot most-recently-used-first cache of
 * pages made writable during one commit or revert, and the protect/unprotect
 * calls it makes, recorded as a ghost trace of OS events.
 */
module Transaction {
  import opened Bytes

  /** Number of slots of unprotected[]. */
  const CacheCapacity: nat := 10

  /** The platform calls the cache makes. */
  datatype OsEvent = Protect(page: Addr) | Unprotect(page: Addr) | ClearCaches

  /** The pages a trace leaves writable: unprotected and not protected since. */
  function Writable(trace: seq<OsEvent>): set<Addr>
    decreases |trace|
  {
    if trace == [] then {}
    else
      var w := Writable(trace[..|trace| - 1]);
      match trace[|trace| - 1]
      case Protect(p) => w - {p}
      case Unprotect(p) => w + {p}
      case ClearCaches => w
  }

  lemma WritableSnoc(t: seq<OsEvent>, e: OsEvent)
    ensures e.Protect? ==> Writable(t + [e]) == Writable(t) - {e.page}
    ensures e.Unprotect? ==> Writable(t + [e]) == Writable(t) + {e.page}
    ensures e.ClearCaches? ==> Writable(t + [e]) == Writable(t)
  {
    assert (t + [e])[..|t + [e]| - 1] == t;
  }

  /** Occupied slots form a prefix and hold distinct pages. */
  ghost predicate CacheShape(s: seq<Addr>) {
    forall i, j :: 0 <= i < j < |s| && s[j] != NULL ==> s[i] != NULL && s[i] != s[j]
  }

  /** The pages in the cache. */
  function Occupied(s: seq<Addr>): set<Addr> {
    set k | 0 <= k < |s| && s[k] != NULL :: s[k]
  }

  /** The pages of a cache are those of all but its last slot, plus the last one if occupied. */
  lemma OccupiedInit(s: seq<Addr>)
    requires s != []
    ensures var s', x := s[..|s| - 1], s[|s| - 1];
      Occupied(s) == if x == NULL then Occupied(s') else Occupied(s') + {x}
  {
    var s', x := s[..|s| - 1], s[|s| - 1];
    assert forall k :: 0 <= k < |s'| ==> s[k] == s'[k];
  }

  /** The first slot holding x, or |s| if none does. */
  function Find(s: seq<Addr>, x: Addr): (r: nat)
    ensures r <= |s|
    ensures r < |s| ==> s[r] == x
    ensures forall k :: 0 <= k < r ==> s[k] != x
    decreases |s|
  {
    if s == [] then 0 else if s[0] == x then 0 else 1 + Find(s[1..], x)
  }

  /**
   * The cache after touching page: on a hit the page moves to slot 0 and the
   * slots before it move back one; on a miss everything moves back one, the
   * last slot falls off, and the page lands in slot 0.
   */
  function Touch(s: seq<Addr>, page: Addr): (r: seq<Addr>)
    requires |s| > 0
    ensures |r| == |s| && r[0] == page
  {
    var i := Find(s, page);
    if i < |s| then [page] + s[..i] + s[i + 1..] else [page] + s[..|s| - 1]
  }

  /** The OS calls a touch makes: none on a hit; on a miss an unprotect of the
      page, then a protect of the evicted page if the last slot was occupied. */
  function TouchEvents(s: seq<Addr>, page: Addr): seq<OsEvent>
    requires |s| > 0
  {
    if Find(s, page) < |s| then []
    else [Unprotect(page)] + (if s[|s| - 1] != NULL then [Protect(s[|s| - 1])] else [])
  }

  /** A touch keeps the cache shape. */
  lemma TouchShape(s: seq<Addr>, page: Addr)
    requires |s| > 0 && CacheShape(s) && page != NULL
    ensures CacheShape(Touch(s, page))
  {
    var i := Find(s, page);
    var r := Touch(s, page);
    if i < |s| {
      assert forall k :: 1 <= k <= i ==> r[k] == s[k - 1];
      assert forall k :: i < k < |s| ==> r[k] == s[k];
    } else {
      assert forall k :: 1 <= k < |s| ==> r[k] == s[k - 1];
    }
  }

  /** A hit keeps the set of cached pages; a miss adds the page and drops the
      coldest one, which is the last slot. */
  lemma TouchOccupied(s: seq<Addr>, page: Addr)
    requires |s| > 0 && CacheShape(s) && page != NULL
    ensures Find(s, page) < |s| ==> Occupied(Touch(s, page)) == Occupied(s)
    ensures Find(s, page) == |s| ==>
      Occupied(Touch(s, page)) == (Occupied(s) - {s[|s| - 1]}) + {page}
  {
    var i := Find(s, page);
    var r := Touch(s, page);
    if i < |s| {
      forall x | x in Occupied(s) ensures x in Occupied(r) {
        var k :| 0 <= k < |s| && s[k] != NULL && s[k] == x;
        if k < i { assert r[k + 1] == x; } else if k == i { assert r[0] == x; } else { assert r[k] == x; }
      }
      forall x | x in Occupied(r) ensures x in Occupied(s) {
        var k :| 0 <= k < |r| && r[k] != NULL && r[k] == x;
        if k == 0 { assert s[i] == x; } else if k <= i { assert s[k - 1] == x; } else { assert s[k] == x; }
      }
    } else {
      var n := |s| - 1;
      forall x | x in Occupied(r) ensures x in (Occupied(s) - {s[n]}) + {page} {
        var k :| 0 <= k < |r| && r[k] != NULL && r[k] == x;
        if k > 0 { assert s[k - 1] == x; }
      }
      forall x | x in (Occupied(s) - {s[n]}) + {page} ensures x in Occupied(r) {
        if x == page { assert r[0] == x; }
        else {
          var k :| 0 <= k < |s| && s[k] != NULL && s[k] == x;
          assert k != n;
          assert r[k + 1] == x;
        }
      }
    }
  }

  /** A touch keeps the writable pages equal to the cached pages. */
  lemma TouchWritable(t: seq<OsEvent>, s: seq<Addr>, page: Addr)
    requires |s| > 0 && CacheShape(s) && page != NULL && Writable(t) == Occupied(s)
    ensures Writable(t + TouchEvents(s, page)) == Occupied(Touch(s, page))
  {
    TouchOccupied(s, page);
    var n := |s| - 1;
    if Find(s, page) < |s| {
      assert t + TouchEvents(s, page) == t;
    } else {
      assert page !in Occupied(s);
      WritableSnoc(t, Unprotect(page));
      if s[n] != NULL {
        assert t + TouchEvents(s, page) == (t + [Unprotect(page)]) + [Protect(s[n])];
        WritableSnoc(t + [Unprotect(page)], Protect(s[n]));
      } else {
        assert s[n] !in Occupied(s);
        assert t + TouchEvents(s, page) == t + [Unprotect(page)];
      }
    }
  }

  /** Touching pages one after another, oldest first. */
  function TouchAll(s: seq<Addr>, pages: seq<Addr>): (r: seq<Addr>)
    requires |s| > 0
    ensures |r| == |s|
    decreases |pages|
  {
    if pages == [] then s else Touch(TouchAll(s, pages[..|pages| - 1]), pages[|pages| - 1])
  }

  function Reverse(s: seq<Addr>): (r: seq<Addr>)
    ensures |r| == |s|
    ensures forall k :: 0 <= k < |s| ==> r[k] == s[|s| - 1 - k]
    decreases |s|
  {
    if s == [] then [] else [s[|s| - 1]] + Reverse(s[..|s| - 1])
  }

  /**
   * Least-recently-used eviction: after touching distinct new pages, the cache
   * holds the most recent ones first, followed by what was there before, and
   * whatever no longer fits (the coldest entries) has been pushed out.
   */
  lemma {:induction false} TouchAllNewest(s: seq<Addr>, pages: seq<Addr>)
    requires |s| > 0
    requires forall i, j :: 0 <= i < j < |pages| ==> pages[i] != pages[j]
    requires forall i :: 0 <= i < |pages| ==> pages[i] !in s
    ensures TouchAll(s, pages) == (Reverse(pages) + s)[..|s|]
    decreases |pages|
  {
    if pages != [] {
      var init, p := pages[..|pages| - 1], pages[|pages| - 1];
      TouchAllNewest(s, init);
      var c := TouchAll(s, init);
      assert c == (Reverse(init) + s)[..|s|];
      assert Find(c, p) == |c|;
      assert Touch(c, p) == [p] + c[..|c| - 1];
      assert Reverse(pages) == [p] + Reverse(init);
    }
  }

  /** protect() calls of mv_transaction_end for the occupied slots, in slot order. */
  function ProtectEach(s: seq<Addr>): seq<OsEvent>
    decreases |s|
  {
    if s == [] then []
    else ProtectEach(s[..|s| - 1]) + (if s[|s| - 1] != NULL then [Protect(s[|s| - 1])] else [])
  }

  /** Protecting every occupied slot makes every cached page read-only again. */
  lemma {:induction false} ProtectEachWritable(t: seq<OsEvent>, s: seq<Addr>)
    ensures Writable(t + ProtectEach(s)) == Writable(t) - Occupied(s)
    decreases |s|
  {
    if s == [] {
      assert t + ProtectEach(s) == t;
      assert Occupied(s) == {};
    } else {
      var s', x := s[..|s| - 1], s[|s| - 1];
      ProtectEachWritable(t, s');
      OccupiedInit(s);
      if x != NULL {
        assert t + ProtectEach(s) == (t + ProtectEach(s')) + [Protect(x)];
        WritableSnoc(t + ProtectEach(s'), Protect(x));
      } else {
        assert t + ProtectEach(s) == t + ProtectEach(s');
      }
    }
  }

  /** On a cache of distinct pages each cached page is protected exactly once. */
  lemma {:induction false} ProtectEachOnce(s: seq<Addr>, p: Addr)
    requires CacheShape(s) && p != NULL
    ensures multiset(ProtectEach(s))[Protect(p)] == if p in Occupied(s) then 1 else 0
    decreases |s|
  {
    if s != [] {
      var s', x := s[..|s| - 1], s[|s| - 1];
      assert CacheShape(s') by {
        forall i, j | 0 <= i < j < |s'| && s'[j] != NULL ensures s'[i] != NULL && s'[i] != s'[j] {
          assert s'[i] == s[i] && s'[j] == s[j];
        }
      }
      ProtectEachOnce(s', p);
      var tail := if x != NULL then [Protect(x)] else [];
      assert ProtectEach(s) == ProtectEach(s') + tail;
      assert multiset(ProtectEach(s)) == multiset(ProtectEach(s')) + multiset(tail);
      assert multiset(tail)[Protect(p)] == if x != NULL && x == p then 1 else 0;
      OccupiedInit(s);
      if x != NULL && x == p {
        assert p !in Occupied(s') by {
          forall k | 0 <= k < |s'| && s'[k] != NULL ensures s'[k] != p {
            assert s'[k] == s[k];
          }
        }
      }
    }
  }

  /** With no occupied slot, ending a transaction protects nothing. */
  lemma {:induction false} ProtectEachEmpty(s: seq<Addr>)
    requires forall k :: 0 <= k < |s| ==> s[k] == NULL
    ensures ProtectEach(s) == []
    decreases |s|
  {
    if s != [] {
      ProtectEachEmpty(s[..|s| - 1]);
    }
  }

  /** mv_transaction_ctx_t. */
  class TransactionCtx {
    const cacheSize: nat
    const unprotected: array<Addr>
    ghost var osTrace: seq<OsEvent>

    /** The cache has its shape and exactly its pages are writable. */
    ghost predicate Valid()
      reads this, unprotected
    {
      && cacheSize == CacheCapacity
      && unprotected.Length == cacheSize
      && CacheShape(unprotected[..])
      && Writable(osTrace) == Occupied(unprotected[..])
    }

    /** mv_transaction_start: capacity 10, every slot empty. */
    constructor Start()
      ensures Valid() && fresh(unprotected) && osTrace == []
      ensures forall k :: 0 <= k < unprotected.Length ==> unprotected[k] == NULL
    {
      cacheSize := CacheCapacity;
      unprotected := new Addr[CacheCapacity](_ => NULL);
      osTrace := [];
      new;
      assert Occupied(unprotected[..]) == {};
    }

    /** Moves a[0..n) to a[1..n+1), last slot first. */
    static method ShiftBack(a: array<Addr>, n: nat)
      requires n < a.Length
      modifies a
      ensures a[0] == old(a[0])
      ensures forall k :: 1 <= k <= n ==> a[k] == old(a[k - 1])
      ensures forall k :: n < k < a.Length ==> a[k] == old(a[k])
    {
      var j := n;
      while j > 0
        invariant 0 <= j <= n
        invariant forall k :: 0 <= k <= j ==> a[k] == old(a[k])
        invariant forall k :: j < k <= n ==> a[k] == old(a[k - 1])
        invariant forall k :: n < k < a.Length ==> a[k] == old(a[k])
      {
        a[j] := a[j - 1];
        j := j - 1;
      }
    }

    /** The slot shift of both paths: a[i] is dropped, a[0..i) moves back one
        slot, and page goes to slot 0. */
    static method MoveToFront(a: array<Addr>, i: nat, page: Addr)
      requires i < a.Length
      modifies a
      ensures a[..] == [page] + old(a[..])[..i] + old(a[..])[i + 1..]
    {
      ghost var s := a[..];
      ShiftBack(a, i);
      a[0] := page;
      ghost var r := [page] + s[..i] + s[i + 1..];
      assert forall k :: 0 <= k < a.Length ==> a[k] == r[k] by {
        forall k | 0 <= k < a.Length ensures a[k] == r[k] {
          if k == 0 {
          } else if k <= i {
            assert r[k] == s[k - 1];
          } else {
            assert r[k] == s[k];
          }
        }
      }
      assert a[..] == r;
    }

    /**
     * multiverse_transaction_unprotect: make the page holding addr writable
     * (addrToPage is multiverse_os_addr_to_page). The miss path is the element
     * shift its comment describes.
     */
    method Unprotect(addr: Addr, addrToPage: Addr -> Addr)
      requires Valid() && addrToPage(addr) != NULL
      modifies this, unprotected
      ensures Valid()
      ensures unprotected[..] == Touch(old(unprotected[..]), addrToPage(addr))
      ensures osTrace == old(osTrace) + TouchEvents(old(unprotected[..]), addrToPage(addr))
    {
      var page := addrToPage(addr);
      ghost var s, t := unprotected[..], osTrace;
      ghost var r, e := Touch(s, page), TouchEvents(s, page);
      TouchShape(s, page);
      TouchWritable(osTrace, s, page);
      assert Writable(t + e) == Occupied(r);
      var i := 0;
      while i < cacheSize
        invariant 0 <= i <= cacheSize
        invariant forall k :: 0 <= k < i ==> unprotected[k] != page
        invariant unprotected[..] == s
      {
        if unprotected[i] == page {
          assert Find(s, page) == i;
          MoveToFront(unprotected, i, page);
          assert unprotected[..] == r;
          assert e == [] && t + e == t;
          return;
        }
        i := i + 1;
      }
      assert Find(s, page) == |s|;
      osTrace := osTrace + [OsEvent.Unprotect(page)];
      if unprotected[cacheSize - 1] != NULL {
        osTrace := osTrace + [Protect(unprotected[cacheSize - 1])];
      }
      assert osTrace == t + e;
      MoveToFront(unprotected, cacheSize - 1, page);
      assert s[cacheSize - 1 + 1..] == [];
      assert unprotected[..] == r;
    }

    /** mv_transaction_end: protect every occupied slot once, then flush caches. */
    method End()
      requires Valid()
      modifies this
      ensures osTrace == old(osTrace) + ProtectEach(unprotected[..]) + [ClearCaches]
      ensures Writable(osTrace) == {}
    {
      ghost var t := osTrace;
      var i := 0;
      while i < cacheSize
        invariant 0 <= i <= cacheSize
        invariant osTrace == t + ProtectEach(unprotected[..i])
      {
        assert unprotected[..i + 1][..i] == unprotected[..i];
        if unprotected[i] != NULL {
          osTrace := osTrace + [Protect(unprotected[i])];
        }
        i := i + 1;
      }
      assert unprotected[..i] == unprotected[..];
      ProtectEachWritable(t, unprotected[..]);
      WritableSnoc(osTrace, ClearCaches);
      osTrace := osTrace + [ClearCaches];
    }
  }

  /**
   * The miss-path shift as written at mv_commit.c:82-83: memmove is given
   * cache_size - 1 = 9 as a BYTE count. With 8-byte little-endian slots it
   * copies slot 0 into slot 1 and the low byte of the old slot 1 into the low
   * byte of slot 2; nothing else moves.
   */
  function MissShiftAsWritten(s: seq<Addr>): (r: seq<Addr>)
    requires |s| == CacheCapacity
    ensures |r| == |s| && r[0] == s[0] && r[1] == s[0]
    ensures r[2] % 256 == s[1] % 256 && r[2] / 256 == s[2] / 256
    ensures forall k :: 3 <= k < |s| ==> r[k] == s[k]
  {
    s[1 := s[0]][2 := s[2] - s[2] % 256 + s[1] % 256]
  }

  /** multiverse_transaction_unprotect as written: the hit path as modelled, the miss path with the byte-count shift. */
  function TouchAsWritten(s: seq<Addr>, page: Addr): seq<Addr>
    requires |s| == CacheCapacity
  {
    if Find(s, page) < |s| then Touch(s, page) else MissShiftAsWritten(s)[0 := page]
  }

  const EmptyCache: seq<Addr> := seq(CacheCapacity, _ => NULL)

  /** The cache after each of the three misses, with the shift as written. */
  lemma ThreeMissesAsWritten()
    ensures
      var a, b, p, nulls := 0x1000, 0x2000, 0x3000, seq(8, _ => NULL);
      var s1 := TouchAsWritten(EmptyCache, a);
      var s2 := TouchAsWritten(s1, b);
      && Find(EmptyCache, a) == CacheCapacity && s1 == [a, NULL] + nulls
      && Find(s1, b) == CacheCapacity && s2 == [b, a] + nulls
      && Find(s2, p) == CacheCapacity && TouchAsWritten(s2, p) == [p, b] + nulls
  {
    var a, b, p := 0x1000, 0x2000, 0x3000;
    var nulls := seq(8, _ => NULL);
    var s1 := TouchAsWritten(EmptyCache, a);
    assert Find(EmptyCache, a) == CacheCapacity;
    assert s1 == [a, NULL] + nulls;
    var s2 := TouchAsWritten(s1, b);
    assert Find(s1, b) == CacheCapacity;
    assert s2 == [b, a] + nulls;
    assert Find(s2, p) == CacheCapacity;
  }

  /**
   * As written, three misses on distinct pages A, B, P lose A from the cache
   * (slot 1 is overwritten instead of moved), so mv_transaction_end never
   * re-protects it: A is still writable after the transaction.
   */
  lemma MissAsWrittenLeavesPageWritable()
    ensures
      var a, b, p := 0x1000, 0x2000, 0x3000;
      var s1 := TouchAsWritten(EmptyCache, a);
      var s2 := TouchAsWritten(s1, b);
      var s3 := TouchAsWritten(s2, p);
      var trace := TouchEvents(EmptyCache, a) + TouchEvents(s1, b) + TouchEvents(s2, p);
      && a !in Occupied(s3)
      && Writable(trace + ProtectEach(s3) + [ClearCaches]) == {a}
  {
    var a, b, p := 0x1000, 0x2000, 0x3000;
    var nulls := seq(8, _ => NULL);
    ThreeMissesAsWritten();
    var s1 := TouchAsWritten(EmptyCache, a);
    var s2 := TouchAsWritten(s1, b);
    var s3 := TouchAsWritten(s2, p);
    var trace := TouchEvents(EmptyCache, a) + TouchEvents(s1, b) + TouchEvents(s2, p);
    assert trace == [OsEvent.Unprotect(a), OsEvent.Unprotect(b), OsEvent.Unprotect(p)];
    WritableSnoc([], OsEvent.Unprotect(a));
    WritableSnoc([OsEvent.Unprotect(a)], OsEvent.Unprotect(b));
    assert trace == [OsEvent.Unprotect(a), OsEvent.Unprotect(b)] + [OsEvent.Unprotect(p)];
    WritableSnoc([OsEvent.Unprotect(a), OsEvent.Unprotect(b)], OsEvent.Unprotect(p));
    assert Writable(trace) == {a, b, p};
    assert a !in Occupied(s3) by {
      forall k | 0 <= k < |s3| && s3[k] != NULL ensures s3[k] != a {
        assert k < 2;
      }
    }
    assert Occupied(s3) == {p, b} by {
      assert s3[0] == p && s3[1] == b;
      forall k | 0 <= k < |s3| && s3[k] != NULL ensures s3[k] in {p, b} {
        assert k < 2;
      }
    }
    ProtectEachWritable(trace, s3);
    WritableSnoc(trace + ProtectEach(s3), ClearCaches);
  }

  /**
   * The intended element shift on the same three misses keeps all three pages
   * cached, and ending the transaction leaves nothing writable.
   */
  lemma MissCorrectedRestoresAll()
    ensures
      var a, b, p := 0x1000, 0x2000, 0x3000;
      var s1 := Touch(EmptyCache, a);
      var s2 := Touch(s1, b);
      var s3 := Touch(s2, p);
      var trace := TouchEvents(EmptyCache, a) + TouchEvents(s1, b) + TouchEvents(s2, p);
      && Occupied(s3) == {a, b, p}
      && Writable(trace + ProtectEach(s3) + [ClearCaches]) == {}
  {
    var a, b, p := 0x1000, 0x2000, 0x3000;
    var s0 := EmptyCache;
    assert CacheShape(s0);
    assert Occupied(s0) == {};
    var s1 := Touch(s0, a);
    var s2 := Touch(s1, b);
    var s3 := Touch(s2, p);
    TouchShape(s0, a);
    TouchShape(s1, b);
    TouchShape(s2, p);
    TouchWritable([], s0, a);
    var t1 := TouchEvents(s0, a);
    TouchWritable(t1, s1, b);
    var t2 := t1 + TouchEvents(s1, b);
    TouchWritable(t2, s2, p);
    var t3 := t2 + TouchEvents(s2, p);
    assert Find(s0, a) == CacheCapacity;
    assert s1 == [a] + s0[..9];
    assert Find(s1, b) == CacheCapacity;
    assert s2 == [b] + s1[..9];
    assert Find(s2, p) == CacheCapacity;
    assert s3 == [p] + s2[..9];
    TouchOccupied(s0, a);
    TouchOccupied(s1, b);
    TouchOccupied(s2, p);
    ProtectEachWritable(t3, s3);
    WritableSnoc(t3 + ProtectEach(s3), ClearCaches);
  }
}
