/** The hook engine at work on the memory of its process. */
module Process {
  import opened Bytes
  import opened Decoders
  import opened Branches
  import opened PatternScan
  import opened CodeCave
  import opened Islands

  // Writing pieces one after another is writing them at once.
  lemma WritesJoin(mem: seq<byte>, a: nat, first: seq<byte>, second: seq<byte>)
    requires a + |first| + |second| <= |mem|
    ensures Write(Write(mem, a, first), a + |first|, second) == Write(mem, a, first + second)
  {
  }

  class HookEngine {
    const pad: Pad
    var mem: seq<byte>
    var caveInstSize: nat
    var once: bool

    ghost predicate Valid()
      reads this
    {
      Sound(pad.decoder) && Room(pad, mem)
    }

    function Cave(): State
      reads this
    {
      State(mem, caveInstSize, once)
    }

    constructor (pad: Pad, mem: seq<byte>)
      requires Sound(pad.decoder) && Room(pad, mem)
      ensures Valid() && this.pad == pad && Cave() == State(mem, 0, false)
    {
      this.pad, this.mem := pad, mem;
      caveInstSize, once := 0, false;
    }

    method SysProcRw(addr: nat, data: seq<byte>)
      requires addr + |data| <= |mem|
      modifies this`mem
      ensures mem == Write(old(mem), addr, data)
    {
      mem := Write(mem, addr, data);
    }

    method SysProcMemset(addr: nat, c: byte, len: nat)
      requires addr + len <= |mem|
      modifies this`mem
      ensures mem == Write(old(mem), addr, seq<byte>(len, i => c))
    {
      mem := Write(mem, addr, seq<byte>(len, i => c));
    }

    method CaveBlockInit()
      requires Valid()
      modifies this
      ensures Valid() && Cave() == InitCave(pad, old(Cave()))
    {
      if !once {
        SysProcRw(pad.base, SELF_TEST);
        SysProcMemset(pad.base, 0xcc, pad.capacity);
        assert seq<byte>(pad.capacity, i => 0xcc) == Fill(pad.capacity);
        once := true;
      }
    }

    // Append to bytes that were just written.
    method Extend(ghost before: seq<byte>, addr: nat, ghost written: seq<byte>, next: nat, data: seq<byte>)
      requires next == addr + |written| && next + |data| <= |mem| == |before| && mem == Write(before, addr, written)
      modifies this`mem
      ensures mem == Write(before, addr, written + data)
    {
      WritesJoin(before, addr, written, data);
      assert Write(mem, next, data) == Write(before, addr, written + data);
      SysProcRw(next, data);
    }

    method WriteBlock(b: Block)
      requires b.at + |b.code| + 14 <= |mem|
      modifies this`mem
      ensures mem == Write(old(mem), b.at, b.Bytes())
    {
      ghost var before := mem;
      SysProcRw(b.at, b.code);
      Extend(before, b.at, b.code, b.at + |b.code|, JMP_STUB);
      Extend(before, b.at, b.code + JMP_STUB, b.at + |b.code| + |JMP_STUB|, ToLe(b.from + |b.code|, QWORD));
    }

    // Copy size bytes of instructions to the pad, with the jump back after them.
    method AppendBlock(address: nat, size: nat) returns (caveAddr: nat)
      requires Valid() && caveInstSize + size + |JMP_STUB| <= pad.capacity
      modifies this
      ensures Valid() && caveAddr == pad.base + old(caveInstSize)
      ensures Cave() == Install(old(Cave()), Block(caveAddr, address, Slice(old(mem), address, size)))
    {
      caveAddr := pad.base + caveInstSize;
      WriteBlock(Block(caveAddr, address, Slice(mem, address, size)));
      caveInstSize := caveInstSize + (size + (|JMP_STUB| + QWORD));
    }

    // Measure the instructions at address and copy them, if they fit.
    method HookIntoCave(address: nat, min: int) returns (caveAddr: nat)
      requires Valid()
      modifies this
      ensures Valid()
      ensures var plan := Plan(pad, old(Cave()), address, min);
              caveAddr == plan.Address() && Cave() == if plan.Hooked? then Install(old(Cave()), plan.block) else old(Cave())
    {
      ghost var plan := Plan(pad, Cave(), address, min);
      if address == 0 || min < 5 {
        assert plan == Refused;
        return 0;
      }
      var size := GetInstructionSize(pad.decoder, mem, address, min);
      if size == 0 || caveInstSize + size + |JMP_STUB| > pad.capacity {
        assert plan == Refused;
        return 0;
      }
      assert plan == Hooked(Block(pad.base + caveInstSize, address, Slice(mem, address, size)));
      caveAddr := AppendBlock(address, size);
    }

    // Hook the code at address: returns where its copied prologue runs, or zero.
    method CreatePrologueHook(address: nat, min: int) returns (caveAddr: nat)
      requires Valid()
      modifies this
      ensures Valid()
      ensures Cave() == CreateHook(pad, old(Cave()), address, min).0
      ensures caveAddr == Returned(pad, old(Cave()), address, min)
      ensures pad.base > 0 ==>
                caveAddr == if Hookable(pad, InitCave(pad, old(Cave())), address, min) then pad.base + old(caveInstSize) else 0
    {
      if pad.base > 0 {
        HookReturns(pad, Cave(), address, min);
      }
      CaveBlockInit();
      caveAddr := HookIntoCave(address, min);
    }

    method WriteJump32(src: nat, dst: nat, len: nat, call: bool)
      requires src + len <= |mem|
      modifies this`mem
      ensures mem == WithJump32(old(mem), src, dst, len, call)
    {
      if src == 0 || dst == 0 || len < JMP_CALL_BYTES {
        return;
      }
      if len != JMP_CALL_BYTES {
        SysProcMemset(src, 0x90, len);
        assert seq<byte>(len, i => 0x90) == Nops(len);
      }
      var relativeAddress := Wrap32(dst - src - JMP_CALL_BYTES);
      var op: byte := if call then 0xe8 else 0xe9;
      SysProcRw(src, [op]);
      SysProcRw(src + 1, ToLe(relativeAddress, DWORD));
    }

    method WriteJump64(src: nat, dst: nat)
      requires src + 14 <= |mem|
      modifies this`mem
      ensures mem == WithJump64(old(mem), src, dst)
    {
      SysProcRw(src, JMP_STUB);
      SysProcRw(src + |JMP_STUB|, ToLe(dst, QWORD));
    }

    // Send the code at src to dst through an island; reports where src branched to before.
    method Make32to64Jmp(r: Request) returns (served: bool, srcOut: nat)
      requires Mapped(|mem|, r)
      modifies this`mem
      ensures served <==> HasPadding(old(mem), r.textbase, r.textsz)
      ensures mem == if served then TwoHops(old(mem), r, Island(old(mem), r.textbase, r.textsz)) else old(mem)
      ensures served ==> srcOut == ReadLEA32(old(mem), r.src, 0, 1, JMP_CALL_BYTES)
    {
      LiteralSignature(PAD1);
      LiteralSignature(PAD2);
      IslandIsFound(mem, r.textbase, r.textsz);
      if Island(mem, r.textbase, r.textsz) != 0 {
        IslandInText(mem, r.textbase, r.textsz);
      }
      var jmparea := Scan(mem, r.textbase, r.textsz, UD2_PADDING, 2);
      if jmparea == 0 {
        jmparea := Scan(mem, r.textbase, r.textsz, NOP_PADDING, 1);
      }
      served, srcOut := jmparea != 0, 0;
      if served {
        IslandInText(mem, r.textbase, r.textsz);
        srcOut := ReadLEA32(mem, r.src, 0, 1, JMP_CALL_BYTES);
        WriteJump32(r.src, jmparea, r.len, r.call);
        WriteJump64(jmparea, r.dst);
      }
    }
  }
}
