/** Hooks measured by hde64: its flags tell which code can be copied. */
module HdeHooks {
  import opened Bytes
  import opened Table64
  import opened Hde64
  import opened Decoders
  import opened Branches
  import opened CodeCave
  import opened Trampoline
  import opened StubLaws
  import opened HookFrames
  import opened Engine
  import opened Islands
  import HookRuns

  // What the decoder shows of an instruction that does not depend on its address: no relative
  // branch, no operand relative to the instruction pointer, no call or system call, which
  // would save the address of the next instruction.
  predicate PositionIndependent(hs: Hde) {
    && F_ERROR !in hs.flags && F_RELATIVE !in hs.flags
    && !(F_MODRM in hs.flags && hs.modrm_mod == 0 && hs.modrm_rm == 5)
    && !(hs.opcode == 0xff && hs.modrm_reg in {2, 3})
    && !(hs.opcode == 0x0f && hs.opcode2 == 0x05)
  }

  // Instructions mean the same everywhere if the decoder shows them position independent.
  ghost predicate RespectsDecoder<M(!new)>(d: Decoder, eff: Effect<M>) {
    forall mem, pc :: PositionIndependent(d(mem, pc)) ==> Relocatable(eff, Slice(mem, pc, d(mem, pc).len))
  }

  ghost predicate AllPositionIndependent(d: Decoder, mem: seq<byte>, a: nat, k: nat)
    decreases k
  {
    k == 0 || (PositionIndependent(d(mem, a)) && AllPositionIndependent(d, mem, a + d(mem, a).len, k - 1))
  }

  // A jump through memory depends on where it stands, and the decoder shows it.
  ghost predicate ShowsJumps(d: Decoder) {
    forall mem, pc :: IsJumpThroughMemory(mem, pc) ==> !PositionIndependent(d(mem, pc))
  }

  lemma JumpIsShown(t: HdeTable, mem: seq<byte>, pc: nat)
    requires GroupFf(t) && IsJumpThroughMemory(mem, pc)
    ensures !PositionIndependent(HdeDecoder(t)(mem, pc))
  {
    StubDecodes(t, mem, pc);
  }

  lemma Hde64ShowsJumps()
    ensures ShowsJumps(HdeDecoder(HDE64))
  {
    TableHasGroupFf();
    forall mem, pc | IsJumpThroughMemory(mem, pc) ensures !PositionIndependent(HdeDecoder(HDE64)(mem, pc)) {
      JumpIsShown(HDE64, mem, pc);
    }
  }

  // A hook whose bytes one instruction covers is refused exactly when the capacity check finds no room.
  lemma OneInstructionIsHooked(pad: Pad, s: State, address: nat, min: int)
    requires Sound(pad.decoder) && Room(pad, s.mem) && s.once && address != 0 && min >= 5
    requires CleanAt(pad.decoder, s.mem, address) && min <= pad.decoder(s.mem, address).len
    ensures var len := pad.decoder(s.mem, address).len;
            CreateHook(pad, s, address, min).0.used ==
              if s.used + len + 6 <= pad.capacity then s.used + len + 14 else s.used
  {
    var d, len := pad.decoder, pad.decoder(s.mem, address).len;
    assert Walk(d, s.mem, address + len, min - len) == Count(0);
    assert Walk(d, s.mem, address, min) == Count(1);
    assert Span(d, s.mem, address, 1) == len + Span(d, s.mem, address + len, 0);
  }

  // The first two bytes of a function are off the pad.
  predicate EntryOffPad(pad: Pad, address: nat) {
    OffPad(pad, address) && OffPad(pad, address + 1)
  }

  // A jump through memory measures six bytes.
  ghost predicate MeasuresJumps(d: Decoder) {
    forall mem, pc :: IsJumpThroughMemory(mem, pc) ==> CleanAt(d, mem, pc) && d(mem, pc).len == 6
  }

  lemma Hde64MeasuresJumps()
    ensures MeasuresJumps(HdeDecoder(HDE64))
  {
    TableHasGroupFf();
    forall mem, pc | IsJumpThroughMemory(mem, pc)
      ensures CleanAt(HdeDecoder(HDE64), mem, pc) && HdeDecoder(HDE64)(mem, pc).len == 6
    {
      StubDecodes(HDE64, mem, pc);
    }
  }

  lemma JumpIsHooked(pad: Pad, s: State, address: nat, min: int)
    requires MeasuresJumps(pad.decoder) && Sound(pad.decoder) && Room(pad, s.mem) && EntryOffPad(pad, address)
    requires address != 0 && 5 <= min <= 6 && IsJumpThroughMemory(s.mem, address)
    ensures CreateHook(pad, s, address, min).0.used == if s.used + 12 <= pad.capacity then s.used + 20 else s.used
  {
    var filled := InitCave(pad, s);
    InitFrame(pad, s, address);
    InitFrame(pad, s, address + 1);
    OneInstructionIsHooked(pad, filled, address, min);
    assert CreateHook(pad, s, address, min) == CreateHook(pad, filled, address, min);
  }

  // The same hook made n times.
  function Again(n: nat, address: nat, min: int): (es: seq<Event>)
    ensures |es| == n
  {
    seq(n, _ => Hook(address, min))
  }

  // The state after hooking the same function n times, from a fresh pad.
  function AfterHooks(pad: Pad, mem: seq<byte>, address: nat, min: int, n: nat): (s: State)
    requires Sound(pad.decoder) && Room(pad, mem)
    ensures |s.mem| == |mem|
  {
    Run(pad, State(mem, 0, false), Again(n, address, min)).0
  }

  lemma EntryStays(pad: Pad, mem: seq<byte>, address: nat, min: int, n: nat)
    requires Sound(pad.decoder) && Room(pad, mem) && EntryOffPad(pad, address)
    requires IsJumpThroughMemory(mem, address)
    ensures IsJumpThroughMemory(AfterHooks(pad, mem, address, min, n).mem, address)
  {
    var es := Again(n, address, min);
    assert es[..0] == [];
    RunFrame(pad, State(mem, 0, false), es, 0, address);
    RunFrame(pad, State(mem, 0, false), es, 0, address + 1);
  }

  // A six-byte jump hooked n times takes 20 bytes each time, until the capacity check refuses it.
  lemma {:induction false} HooksTakeRoom(pad: Pad, mem: seq<byte>, address: nat, min: int, n: nat)
    requires MeasuresJumps(pad.decoder) && Sound(pad.decoder) && Room(pad, mem) && EntryOffPad(pad, address)
    requires address != 0 && 5 <= min <= 6 && IsJumpThroughMemory(mem, address)
    ensures var fit := (pad.capacity + 8) / 20;
            AfterHooks(pad, mem, address, min, n).used == 20 * if n < fit then n else fit
    decreases n
  {
    if n > 0 {
      assert Again(n, address, min)[..n - 1] == Again(n - 1, address, min);
      HooksTakeRoom(pad, mem, address, min, n - 1);
      EntryStays(pad, mem, address, min, n - 1);
      JumpIsHooked(pad, AfterHooks(pad, mem, address, min, n - 1), address, min);
    }
  }

  // Pads are overrun: hooks of a six-byte jump end behind the pad exactly when its capacity leaves room for the
  // instruction and the jump of one more block but not for its address, and the pad was filled up.
  lemma OverrunIsReached(pad: Pad, mem: seq<byte>, address: nat, min: int, n: nat)
    requires MeasuresJumps(pad.decoder) && Sound(pad.decoder) && Room(pad, mem) && EntryOffPad(pad, address)
    requires address != 0 && 5 <= min <= 6 && IsJumpThroughMemory(mem, address)
    ensures AfterHooks(pad, mem, address, min, n).used > pad.capacity <==>
              pad.capacity % 20 >= 12 && n > pad.capacity / 20
  {
    HooksTakeRoom(pad, mem, address, min, n);
  }

  // So is, with hde64, the pad of 4096 bytes that the build makes: 205 such hooks end 4 bytes behind it.
  lemma BuildPadIsOverrun(pad: Pad, mem: seq<byte>, address: nat, min: int)
    requires pad.decoder == HdeDecoder(HDE64) && Sound(pad.decoder) && Room(pad, mem) && EntryOffPad(pad, address)
    requires address != 0 && 5 <= min <= 6 && IsJumpThroughMemory(mem, address) && pad.capacity == 4096
    ensures AfterHooks(pad, mem, address, min, 204).used <= pad.capacity
    ensures AfterHooks(pad, mem, address, min, 205).used == pad.capacity + 4
  {
    Hde64MeasuresJumps();
    HooksTakeRoom(pad, mem, address, min, 204);
    HooksTakeRoom(pad, mem, address, min, 205);
  }

  lemma {:induction false} PositionIndependentIsCopyable<M(!new)>(
      d: Decoder, mem: seq<byte>, eff: Effect<M>, a: nat, k: nat)
    requires ShowsJumps(d) && RespectsDecoder(d, eff) && AllPositionIndependent(d, mem, a, k)
    ensures Copyable(d, mem, eff, a, k)
    decreases k
  {
    if k > 0 {
      PositionIndependentIsCopyable(d, mem, eff, a + d(mem, a).len, k - 1);
    }
  }

  // At the end of any run of hooks and patches, calling what a hook returned does what the hooked
  // code did before, if hde64 shows the copied instructions position independent.
  lemma HdeHookPreservesMeaning<M(!new)>(
      pad: Pad, mem: seq<byte>, es: seq<Event>, i: nat, eff: Effect<M>, m: M, s: State, k: nat, r: nat)
    requires pad.decoder == HdeDecoder(HDE64) && Sound(pad.decoder) && RespectsDecoder(pad.decoder, eff)
    requires Room(pad, mem) && AllAllowed(pad, |mem|, es) && i < |es| && |mem| < TWO64
    requires es[i].Hook? && s == HookRuns.Before(pad, mem, es, i) && r == HookRuns.Gets(pad, mem, es, i) && r != 0
    requires ReachesAt(pad.decoder, s.mem, es[i].address, es[i].min, k) && es[i].address + es[i].min + 15 < TWO64
    requires AllPositionIndependent(pad.decoder, s.mem, es[i].address, k)
    ensures SamePassage(pad.decoder, s.mem, Run(pad, State(mem, 0, false), es).0.mem, eff, es[i].address, r, k, m)
  {
    Hde64ShowsJumps();
    PositionIndependentIsCopyable(pad.decoder, s.mem, eff, es[i].address, k);
    HookRuns.EveryHookPreservesMeaning(pad, mem, es, i, eff, m, s, k, r);
  }

  // And so does the rest of the function, for as long as it runs through code that the run did not change.
  lemma HdeHookRunsOn<M(!new)>(
      pad: Pad, mem: seq<byte>, es: seq<Event>, i: nat, eff: Effect<M>, m: M, n: nat, s: State, k: nat, r: nat,
      after: seq<byte>)
    requires pad.decoder == HdeDecoder(HDE64) && Sound(pad.decoder) && RespectsDecoder(pad.decoder, eff)
    requires Room(pad, mem) && AllAllowed(pad, |mem|, es) && i < |es| && |mem| < TWO64
    requires es[i].Hook? && s == HookRuns.Before(pad, mem, es, i) && after == Run(pad, State(mem, 0, false), es).0.mem
    requires r == HookRuns.Gets(pad, mem, es, i) && r != 0
    requires ReachesAt(pad.decoder, s.mem, es[i].address, es[i].min, k) && es[i].address + es[i].min + 15 < TWO64
    requires AllPositionIndependent(pad.decoder, s.mem, es[i].address, k)
    requires StaysShared(pad.decoder, s.mem, after, eff, n, Behind(pad.decoder, s.mem, eff, es[i].address, k, m))
    ensures RunsOn(pad.decoder, s.mem, after, eff, es[i].address, r, k, m, n)
  {
    Hde64ShowsJumps();
    PositionIndependentIsCopyable(pad.decoder, s.mem, eff, es[i].address, k);
    HookRuns.EveryHookRunsOn(pad, mem, es, i, eff, m, n, s, k, r, after);
  }

  // Hooking a function as the engine is used, with hde64: at the end of any run that goes on, its entry leads to
  // the replacement through the island, and calling the hook runs the function as it was.
  lemma HdeReplacementAndOriginal<M(!new)>(
      pad: Pad, mem: seq<byte>, before: seq<Action>, e: Engine, acts: seq<Action>, eff: Effect<M>, m: M, n: nat,
      s: State, k: nat, r: nat, l: Link)
    requires pad.decoder == HdeDecoder(HDE64) && Sound(pad.decoder) && RespectsDecoder(pad.decoder, eff)
    requires Room(pad, mem) && |mem| < TWO64 && AllFit(pad, Fresh(mem), before) && e == RunEngine(pad, Fresh(mem), before)
    requires Room(pad, e.cave.mem) && AllFit(pad, e, acts)
    requires |acts| >= 2 && acts[0].Prologue? && acts[1] == Redirection(l.request) && l.request.src == acts[0].address
    requires s == InitCave(pad, e.cave) && r == Returned(pad, e.cave, acts[0].address, acts[0].min) && r != 0
    requires NewLinks(Act(pad, e, acts[0]).cave.mem, l.request) == [l]
    requires ReachesAt(pad.decoder, s.mem, acts[0].address, acts[0].min, k) && acts[0].address + acts[0].min + 15 < TWO64
    requires AllPositionIndependent(pad.decoder, s.mem, acts[0].address, k)
    requires StaysKept(pad.decoder, s.mem, eff, n, Behind(pad.decoder, s.mem, eff, acts[0].address, k, m),
                       LeftAlone(pad, e, acts))
    ensures var now, entry := RunEngine(pad, e, acts).cave.mem, acts[0].address;
            && (ReadLEA32(now, entry, 0, 1, JMP_CALL_BYTES) == l.island <==> InReach(entry, l.island))
            && IsJumpThroughMemory(now, l.island) && JumpTarget(now, l.island) == l.request.dst
            && RunsOn(pad.decoder, s.mem, now, eff, entry, r, k, m, n)
  {
    Hde64ShowsJumps();
    PositionIndependentIsCopyable(pad.decoder, s.mem, eff, acts[0].address, k);
    FreshKeepsInvariant(pad, mem, before);
    ReplacementAndOriginal(pad, e, acts, eff, m, n, s, k, r, l);
  }

  // The same with hde64 for an entry that is overwritten with a long jump.
  lemma HdeDetourAndOriginal<M(!new)>(
      pad: Pad, mem: seq<byte>, before: seq<Action>, e: Engine, acts: seq<Action>, eff: Effect<M>, m: M, n: nat,
      s: State, k: nat, r: nat, j: Jump)
    requires pad.decoder == HdeDecoder(HDE64) && Sound(pad.decoder) && RespectsDecoder(pad.decoder, eff)
    requires Room(pad, mem) && |mem| < TWO64 && AllFit(pad, Fresh(mem), before) && e == RunEngine(pad, Fresh(mem), before)
    requires Room(pad, e.cave.mem) && AllFit(pad, e, acts)
    requires |acts| >= 2 && acts[0].Prologue? && acts[1] == Detour(j) && j.at == acts[0].address
    requires s == InitCave(pad, e.cave) && r == Returned(pad, e.cave, acts[0].address, acts[0].min) && r != 0
    requires ReachesAt(pad.decoder, s.mem, acts[0].address, acts[0].min, k) && acts[0].address + acts[0].min + 15 < TWO64
    requires AllPositionIndependent(pad.decoder, s.mem, acts[0].address, k)
    requires StaysKept(pad.decoder, s.mem, eff, n, Behind(pad.decoder, s.mem, eff, acts[0].address, k, m),
                       LeftAlone(pad, e, acts))
    ensures var now, entry := RunEngine(pad, e, acts).cave.mem, acts[0].address;
            && IsJumpThroughMemory(now, entry) && JumpTarget(now, entry) == j.dst
            && RunsOn(pad.decoder, s.mem, now, eff, entry, r, k, m, n)
  {
    Hde64ShowsJumps();
    PositionIndependentIsCopyable(pad.decoder, s.mem, eff, acts[0].address, k);
    FreshKeepsInvariant(pad, mem, before);
    DetourAndOriginal(pad, e, acts, eff, m, n, s, k, r, j);
  }
}
