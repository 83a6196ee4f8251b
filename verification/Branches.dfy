/** The branches that hooks are made of: how they are written, read back and followed. */
module Branches {
  import opened Bytes

  // jmp qword ptr [rip + 0]: the target follows the instruction.
  const JMP_STUB: seq<byte> := [0xff, 0x25, 0x00, 0x00, 0x00, 0x00]
  const JMP_CALL_BYTES: nat := 5

  function Signed32(v: nat): int {
    if v < 0x8000_0000 then v else v - TWO32
  }

  function Nops(n: nat): (s: seq<byte>)
    ensures |s| == n
  {
    seq<byte>(n, i => 0x90)
  }

  // A relative jump or call at src, the rest of len bytes filled with no-operations.
  function WithJump32(mem: seq<byte>, src: nat, dst: nat, len: nat, call: bool): (mem': seq<byte>)
    requires src + len <= |mem|
    ensures |mem'| == |mem|
  {
    if src == 0 || dst == 0 || len < JMP_CALL_BYTES then mem
    else
      var padded := if len != JMP_CALL_BYTES then Write(mem, src, Nops(len)) else mem;
      var opcode: byte := if call then 0xe8 else 0xe9;
      Write(Write(padded, src, [opcode]), src + 1, ToLe(Wrap32(dst - src - JMP_CALL_BYTES), DWORD))
  }

  // A jump through the eight bytes that follow it.
  function WithJump64(mem: seq<byte>, src: nat, dst: nat): (mem': seq<byte>)
    requires src + 14 <= |mem|
    ensures |mem'| == |mem|
  {
    Write(Write(mem, src, JMP_STUB), src + 6, ToLe(dst, QWORD))
  }

  // The address that the 32-bit displacement of the instruction at address leads to.
  function ReadLEA32(mem: seq<byte>, address: nat, offset: nat, leaSize: nat, opcodeSize: nat): nat {
    if address == 0 then 0
    else Wrap64(offset + address + Signed32(Le32(mem, leaSize + address)) + opcodeSize)
  }

  predicate IsJumpThroughMemory(mem: seq<byte>, pc: nat) {
    At(mem, pc) == 0xff && At(mem, pc + 1) == 0x25
  }

  // Where the target of jmp qword ptr [rip + disp32] at pc is stored.
  function JumpSlot(mem: seq<byte>, pc: nat): nat {
    Wrap64(pc + 6 + Signed32(Le32(mem, pc + 2)))
  }

  // Where it goes.
  function JumpTarget(mem: seq<byte>, pc: nat): nat {
    Le64(mem, JumpSlot(mem, pc))
  }

  // The 14 bytes of a jump to target.
  ghost predicate Jump64At(mem: seq<byte>, pc: nat, target: nat) {
    Slice(mem, pc, 6) == JMP_STUB && Slice(mem, pc + 6, 8) == ToLe(target, QWORD)
  }

  lemma StubHasNoDisplacement(mem: seq<byte>, pc: nat)
    requires Slice(mem, pc, 6) == JMP_STUB
    ensures IsJumpThroughMemory(mem, pc) && Le32(mem, pc + 2) == 0
  {
    assert Slice(mem, pc, 6)[0] == At(mem, pc + 0) && Slice(mem, pc, 6)[1] == At(mem, pc + 1);
    SliceWithin(mem, pc, 6, 2, 4);
    ZeroDisplacement();
    LeOfToLe(mem, pc + 2, 0, 0, DWORD);
  }

  lemma Jump64Goes(mem: seq<byte>, pc: nat, target: nat)
    requires Jump64At(mem, pc, target) && target < TWO64 && pc + 6 < TWO64
    ensures IsJumpThroughMemory(mem, pc) && JumpTarget(mem, pc) == target
  {
    StubHasNoDisplacement(mem, pc);
    Le64OfToLe(mem, pc + 6, target);
  }

  lemma ZeroDisplacement()
    ensures JMP_STUB[2..6] == ToLe(0, DWORD)
  {
    assert ToLe(0, 4) == [0, 0, 0, 0];
  }

  lemma WithJump64IsJump(mem: seq<byte>, src: nat, dst: nat)
    requires src + 14 <= |mem|
    ensures Jump64At(WithJump64(mem, src, dst), src, dst)
    ensures forall k: nat :: k < src || src + 14 <= k ==> At(WithJump64(mem, src, dst), k) == At(mem, k)
  {
    var stub := Write(mem, src, JMP_STUB);
    var both := Write(stub, src + 6, ToLe(dst, QWORD));
    var s, s' := Slice(both, src, 6), Slice(both, src + 6, 8);
    forall i | 0 <= i < 6 ensures s[i] == JMP_STUB[i] {
      assert At(both, src + i) == At(stub, src + i);
    }
    forall i | 0 <= i < 8 ensures s'[i] == ToLe(dst, QWORD)[i] {
      assert At(both, src + 6 + i) == ToLe(dst, QWORD)[i];
    }
  }

  // The distance to dst fits the signed 32 bits of a relative branch, around the end of the address space too.
  predicate InReach(src: nat, dst: nat) {
    var delta := Wrap64(dst - src - JMP_CALL_BYTES);
    delta < 0x8000_0000 || TWO64 - 0x8000_0000 <= delta
  }

  lemma DisplacementLeadsBack(src: nat, dst: nat)
    requires dst < TWO64
    ensures Wrap64(src + Signed32(Wrap32(dst - src - JMP_CALL_BYTES)) + JMP_CALL_BYTES) == dst <==> InReach(src, dst)
  {
    var x := dst - src - JMP_CALL_BYTES;
    var delta, s := Wrap64(x), Signed32(Wrap32(x));
    var q := x / 0x1_0000_0000_0000_0000;
    assert x == delta + 0x1_0000_0000_0000_0000 * q;
    LowWord(x, q, delta);
    var y := src + s + JMP_CALL_BYTES;
    assert y == dst + (s - delta) - 0x1_0000_0000_0000_0000 * q;
    if s == delta {
      WrapIs(y, -q, dst);
    } else if s == delta - TWO64 {
      WrapIs(y, -q - 1, dst);
    } else {
      WrapDiffers(y, dst, -q, s - delta);
    }
  }

  lemma LowWord(x: int, q: int, delta: nat)
    requires x == delta + 0x1_0000_0000_0000_0000 * q && delta < TWO64
    ensures var s := Signed32(Wrap32(x));
            && -0x8000_0000 <= s < 0x8000_0000
            && (s == delta <==> delta < 0x8000_0000)
            && (s == delta - TWO64 <==> TWO64 - 0x8000_0000 <= delta)
  {
    assert x == delta + 0x1_0000_0000 * (0x1_0000_0000 * q);
    assert Wrap32(x) == Wrap32(delta);
  }

  lemma WrapDiffers(y: int, w: int, q: int, off: int)
    requires y == w + off + 0x1_0000_0000_0000_0000 * q && 0 <= w < TWO64
    requires off != 0 && off != -TWO64 && -TWO64 - 0x8000_0000 < off < 0x8000_0000
    ensures Wrap64(y) != w
  {
  }

  // Nothing is written from or to a null address, nor over fewer bytes than a branch takes.
  lemma WithJump32Refuses(mem: seq<byte>, src: nat, dst: nat, len: nat, call: bool)
    requires src + len <= |mem| && (src == 0 || dst == 0 || len < 5)
    ensures WithJump32(mem, src, dst, len, call) == mem
  {
  }

  // What a written relative branch holds: the opcode, the distance, and the filler.
  lemma WithJump32Holds(mem: seq<byte>, src: nat, dst: nat, len: nat, call: bool)
    requires src + len <= |mem| && src != 0 && dst != 0 && len >= JMP_CALL_BYTES
    ensures var mem' := WithJump32(mem, src, dst, len, call);
            && At(mem', src) == (if call then 0xe8 else 0xe9)
            && Slice(mem', src + 1, 4) == ToLe(Wrap32(dst - src - JMP_CALL_BYTES), DWORD)
            && (forall k: nat :: src + JMP_CALL_BYTES <= k < src + len ==> At(mem', k) == 0x90)
            && (forall k: nat :: k < src || src + len <= k ==> At(mem', k) == At(mem, k))
  {
    var padded := if len != JMP_CALL_BYTES then Write(mem, src, Nops(len)) else mem;
    var opcode: byte := if call then 0xe8 else 0xe9;
    var headed := Write(padded, src, [opcode]);
    var rel := ToLe(Wrap32(dst - src - JMP_CALL_BYTES), DWORD);
    var mem' := Write(headed, src + 1, rel);
    assert At(headed, src + 0) == [opcode][0];
    var s := Slice(mem', src + 1, 4);
    forall i | 0 <= i < 4 ensures s[i] == rel[i] {
      assert At(mem', src + 1 + i) == rel[i];
    }
    forall k: nat | src + JMP_CALL_BYTES <= k < src + len ensures At(mem', k) == 0x90 {
      assert At(padded, src + (k - src)) == Nops(len)[k - src];
    }
  }

  lemma ReadsDisplacement(mem: seq<byte>, src: nat, rel: nat)
    requires src != 0 && rel < TWO32 && Slice(mem, src + 1, 4) == ToLe(rel, DWORD)
    ensures ReadLEA32(mem, src, 0, 1, JMP_CALL_BYTES) == Wrap64(src + Signed32(rel) + JMP_CALL_BYTES)
  {
    Words();
    LeOfToLe(mem, src + 1, 0, rel, DWORD);
  }

  // Read back, a written branch leads to where it was sent exactly when the distance fits.
  lemma Jump32RoundTrip(mem: seq<byte>, src: nat, dst: nat, len: nat, call: bool)
    requires src + len <= |mem| && src != 0 && 0 < dst < TWO64 && len >= JMP_CALL_BYTES
    ensures ReadLEA32(WithJump32(mem, src, dst, len, call), src, 0, 1, JMP_CALL_BYTES) == dst <==> InReach(src, dst)
  {
    var rel := Wrap32(dst - src - JMP_CALL_BYTES);
    var mem' := WithJump32(mem, src, dst, len, call);
    WithJump32Holds(mem, src, dst, len, call);
    ReadsDisplacement(mem', src, rel);
    DisplacementLeadsBack(src, dst);
  }
}
