/**
 * Bytes and little-endian words. Program memory is a total map from
 * addresses to bytes; the target is a little-endian machine with 8-byte
 * pointers and 8-byte size_t.
 */
module Bytes {

  newtype byte = x: int | 0 <= x < 256

  type Addr = nat

  /** The C null pointer. */
  const NULL: Addr := 0

  /** Bytes of a pointer or a size_t. */
  const WordSize: nat := 8

  type Memory = Addr -> byte

  /** 256^n: one more than the largest unsigned value of n bytes. */
  function Pow256(n: nat): (r: nat)
    ensures r >= 1
  {
    if n == 0 then 1 else 256 * Pow256(n - 1)
  }

  /** The unsigned value of the n bytes stored at loc, least significant first. */
  function LoadLE(mem: Memory, loc: Addr, n: nat): nat
    decreases n
  {
    if n == 0 then 0 else (mem(loc) as nat) + 256 * LoadLE(mem, loc + 1, n - 1)
  }

  /** An n-byte load is an unsigned value of n bytes. */
  lemma {:induction false} LoadLEBound(mem: Memory, loc: Addr, n: nat)
    ensures LoadLE(mem, loc, n) < Pow256(n)
    decreases n
  {
    if n > 0 {
      LoadLEBound(mem, loc + 1, n - 1);
    }
  }

  /** Memory with the byte at a replaced by b. */
  function Put(mem: Memory, a: Addr, b: byte): Memory
  {
    (q: Addr) => if q == a then b else mem(q)
  }

  /** Memory after storing the low n bytes of x at loc, least significant first. */
  function StoreLE(mem: Memory, loc: Addr, n: nat, x: nat): Memory
    decreases n
  {
    if n == 0 then mem else StoreLE(Put(mem, loc, (x % 256) as byte), loc + 1, n - 1, x / 256)
  }

  /** A store at loc writes nothing below loc. */
  lemma {:induction false} StoreLEBelow(mem: Memory, loc: Addr, n: nat, x: nat, a: Addr)
    requires a < loc
    ensures StoreLE(mem, loc, n, x)(a) == mem(a)
    decreases n
  {
    if n > 0 {
      StoreLEBelow(Put(mem, loc, (x % 256) as byte), loc + 1, n - 1, x / 256, a);
    }
  }

  /** Reading back an n-byte store gives the stored value when it fits in n bytes. */
  lemma {:induction false} LoadAfterStore(mem: Memory, loc: Addr, n: nat, x: nat)
    requires x < Pow256(n)
    ensures LoadLE(StoreLE(mem, loc, n, x), loc, n) == x
    decreases n
  {
    if n > 0 {
      var m1 := Put(mem, loc, (x % 256) as byte);
      var s := StoreLE(m1, loc + 1, n - 1, x / 256);
      assert x / 256 < Pow256(n - 1);
      LoadAfterStore(m1, loc + 1, n - 1, x / 256);
      StoreLEBelow(m1, loc + 1, n - 1, x / 256, loc);
      assert s(loc) as nat == x % 256;
    }
  }

  /** The n-byte little-endian encoding of x (truncated to n bytes). */
  function EncodeWord(x: nat, n: nat): (r: seq<byte>)
    ensures |r| == n
    decreases n
  {
    if n == 0 then [] else [(x % 256) as byte] + EncodeWord(x / 256, n - 1)
  }

  /** The unsigned value of a little-endian byte string. */
  function DecodeWord(s: seq<byte>): (r: nat)
    ensures r < Pow256(|s|)
    decreases |s|
  {
    if s == [] then 0 else (s[0] as nat) + 256 * DecodeWord(s[1..])
  }

  /** Decoding an encoding gives the value back when it fits. */
  lemma {:induction false} DecodeEncodeWord(x: nat, n: nat)
    requires x < Pow256(n)
    ensures DecodeWord(EncodeWord(x, n)) == x
    decreases n
  {
    if n > 0 {
      var e := EncodeWord(x, n);
      assert e[1..] == EncodeWord(x / 256, n - 1);
      DecodeEncodeWord(x / 256, n - 1);
    }
  }
}
