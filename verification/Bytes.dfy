/** Bytes of memory and little-endian numbers.
    Memory is a finite sequence of bytes; reading past its end gives zero. */
module Bytes {
  type byte = x: int | 0 <= x < 256

  const TWO32: int := 0x1_0000_0000
  const TWO64: int := 0x1_0000_0000_0000_0000

  // The sizes of a 32-bit and a 64-bit word.
  const DWORD: nat := 4
  const QWORD: nat := 8

  lemma WrapIs(x: int, q: int, w: int)
    requires x == w + 0x1_0000_0000_0000_0000 * q && 0 <= w < TWO64
    ensures Wrap64(x) == w
  {
  }

  // Arithmetic on 64-bit and 32-bit words wraps around.
  function Wrap64(x: int): (w: nat)
    ensures w < TWO64
    ensures 0 <= x < TWO64 ==> w == x
  {
    x % 0x1_0000_0000_0000_0000
  }

  function Wrap32(x: int): (w: nat)
    ensures w < TWO32
  {
    x % 0x1_0000_0000
  }

  function At(mem: seq<byte>, a: nat): byte {
    if a < |mem| then mem[a] else 0
  }

  // The n bytes stored from address a on.
  function Slice(mem: seq<byte>, a: nat, n: nat): (s: seq<byte>)
    ensures |s| == n
    ensures forall i :: 0 <= i < n ==> s[i] == At(mem, a + i)
  {
    seq<byte>(n, i requires 0 <= i => At(mem, a + i))
  }

  // Byte i of what starts at a.
  function Nth(mem: seq<byte>, a: nat, i: nat): byte {
    At(mem, a + i)
  }

  // The bytes of m from a on and those of m' from b on are the same for n bytes.
  ghost predicate Agree(m: seq<byte>, a: nat, m': seq<byte>, b: nat, n: nat) {
    forall i :: 0 <= i < n ==> Nth(m, a, i) == Nth(m', b, i)
  }

  function Write(mem: seq<byte>, a: nat, data: seq<byte>): (mem': seq<byte>)
    requires a + |data| <= |mem|
    ensures |mem'| == |mem|
    ensures forall i :: 0 <= i < |data| ==> At(mem', a + i) == data[i]
    ensures forall k: nat :: k < a || a + |data| <= k ==> At(mem', k) == At(mem, k)
  {
    seq<byte>(|mem|, k requires 0 <= k < |mem| => if a <= k < a + |data| then data[k - a] else mem[k])
  }

  // The number that n bytes hold, least significant first, p bytes after a.
  function Le(mem: seq<byte>, a: nat, p: nat, n: nat): nat
    decreases n
  {
    if n == 0 then 0 else Nth(mem, a, p) + 0x100 * Le(mem, a, p + 1, n - 1)
  }

  function Le64(mem: seq<byte>, a: nat): nat {
    Le(mem, a, 0, QWORD)
  }

  function Le32(mem: seq<byte>, a: nat): nat {
    Le(mem, a, 0, DWORD)
  }

  // The n low bytes of v, least significant first.
  function ToLe(v: nat, n: nat): (s: seq<byte>)
    ensures |s| == n
  {
    if n == 0 then [] else [v % 0x100] + ToLe(v / 0x100, n - 1)
  }

  function Pow256(n: nat): nat {
    if n == 0 then 1 else 0x100 * Pow256(n - 1)
  }

  lemma Words()
    ensures Pow256(DWORD) == TWO32 && Pow256(QWORD) == TWO64
  {
    assert Pow256(4) == TWO32;
    assert Pow256(8) == TWO64;
  }

  // Stored and read back, the low n bytes of v are v modulo 256 to the n.
  lemma {:induction false} LeOfToLe(mem: seq<byte>, a: nat, p: nat, v: nat, n: nat)
    requires Slice(mem, a + p, n) == ToLe(v, n)
    requires v < Pow256(n)
    ensures Le(mem, a, p, n) == v
    decreases n
  {
    if n > 0 {
      var s := Slice(mem, a + p, n);
      assert s[0] == v % 0x100;
      SliceWithin(mem, a + p, n, 1, n - 1);
      assert ToLe(v, n)[1..] == ToLe(v / 0x100, n - 1);
      assert s[1..1 + (n - 1)] == s[1..];
      assert a + p + 1 == a + (p + 1);
      LeOfToLe(mem, a, p + 1, v / 0x100, n - 1);
    }
  }

  lemma Le64OfToLe(mem: seq<byte>, a: nat, v: nat)
    requires v < TWO64 && Slice(mem, a, QWORD) == ToLe(v, QWORD)
    ensures Le64(mem, a) == v
  {
    Words();
    LeOfToLe(mem, a, 0, v, QWORD);
  }

  lemma SliceWithin(mem: seq<byte>, a: nat, n: nat, from: nat, len: nat)
    requires from + len <= n
    ensures Slice(mem, a + from, len) == Slice(mem, a, n)[from..from + len]
  {
    var s, part := Slice(mem, a, n), Slice(mem, a + from, len);
    forall i | 0 <= i < len ensures part[i] == s[from + i] {
      assert part[i] == At(mem, a + from + i);
    }
  }
}
