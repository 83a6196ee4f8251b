/** Hooks over whole runs: every hook made keeps its meaning whatever is hooked and patched later. */
module HookRuns {
  import opened Bytes
  import opened Decoders
  import opened Branches
  import opened CodeCave
  import opened Trampoline

  // A hook takes whole instructions, the fewest that cover min bytes, exactly as they are in memory.
  lemma HookTakesWholeInstructions(pad: Pad, s: State, address: nat, min: int)
    requires Sound(pad.decoder) && Plan(pad, s, address, min).Hooked?
    ensures var b := Plan(pad, s, address, min).block;
            var k := Walk(pad.decoder, s.mem, address, min).n;
            && b.from == address && b.code == Slice(s.mem, address, |b.code|)
            && min <= |b.code| < min + 15
            && ReachesAt(pad.decoder, s.mem, address, min, k) && Span(pad.decoder, s.mem, address, k) == |b.code|
  {
    WalkReaches(pad.decoder, s.mem, address, min);
  }

  // The blocks made by a run stay the first blocks of every longer run.
  lemma {:induction false} BlocksStay(pad: Pad, s: State, es: seq<Event>, i: nat)
    requires Sound(pad.decoder) && Room(pad, s.mem) && AllAllowed(pad, |s.mem|, es) && i <= |es|
    ensures Run(pad, s, es[..i]).1 <= Run(pad, s, es).1
    decreases |es|
  {
    if i == |es| {
      assert es[..i] == es;
    } else {
      assert es[..|es| - 1][..i] == es[..i];
      BlocksStay(pad, s, es[..|es| - 1], i);
    }
  }

  // The state in which event i of a run finds the memory, the pad initialised.
  function Before(pad: Pad, mem: seq<byte>, es: seq<Event>, i: nat): State
    requires Sound(pad.decoder) && Room(pad, mem) && AllAllowed(pad, |mem|, es) && i <= |es|
  {
    InitCave(pad, Run(pad, State(mem, 0, false), es[..i]).0)
  }

  // A block, once made, is intact at the end of the run.
  lemma BlockSurvives(pad: Pad, mem: seq<byte>, es: seq<Event>, i: nat)
    requires Sound(pad.decoder) && Room(pad, mem) && AllAllowed(pad, |mem|, es) && i < |es|
    requires es[i].Hook? && Plan(pad, Before(pad, mem, es, i), es[i].address, es[i].min).Hooked?
    ensures Intact(Run(pad, State(mem, 0, false), es).0.mem,
                   Plan(pad, Before(pad, mem, es, i), es[i].address, es[i].min).block)
  {
    var s0 := State(mem, 0, false);
    var b := Plan(pad, Before(pad, mem, es, i), es[i].address, es[i].min).block;
    var upTo := es[..i + 1];
    assert upTo[..i] == es[..i] && upTo[|upTo| - 1] == es[i];
    var made := Run(pad, s0, upTo).1;
    assert made[|made| - 1] == b;
    BlocksStay(pad, s0, es, i + 1);
    CaveInvariant(pad, mem, es);
    var (s, blocks) := Run(pad, s0, es);
    assert blocks[|made| - 1] == b;
  }

  // What the caller of the hook at event i of a run gets.
  function Gets(pad: Pad, mem: seq<byte>, es: seq<Event>, i: nat): nat
    requires Sound(pad.decoder) && Room(pad, mem) && AllAllowed(pad, |mem|, es) && i < |es| && es[i].Hook?
  {
    Returned(pad, Run(pad, State(mem, 0, false), es[..i]).0, es[i].address, es[i].min)
  }

  // An address that a hook returns is that of its block.
  lemma ReturnsBlock(pad: Pad, s: State, address: nat, min: int, k: nat, r: nat) returns (b: Block)
    requires Sound(pad.decoder) && Room(pad, s.mem) && r == Returned(pad, s, address, min) && r != 0
    requires ReachesAt(pad.decoder, InitCave(pad, s).mem, address, min, k)
    ensures Plan(pad, InitCave(pad, s), address, min) == Hooked(b) && b.at == r && b.from == address
    ensures k == Walk(pad.decoder, InitCave(pad, s).mem, address, min).n
  {
    var s1 := InitCave(pad, s);
    b := Plan(pad, s1, address, min).block;
    ReachesDecides(pad.decoder, s1.mem, address, min, k);
  }

  lemma GetsBlock(pad: Pad, mem: seq<byte>, es: seq<Event>, i: nat, k: nat, r: nat) returns (b: Block)
    requires Sound(pad.decoder) && Room(pad, mem) && AllAllowed(pad, |mem|, es) && i < |es| && es[i].Hook?
    requires r == Gets(pad, mem, es, i) && r != 0
    requires ReachesAt(pad.decoder, Before(pad, mem, es, i).mem, es[i].address, es[i].min, k)
    ensures Plan(pad, Before(pad, mem, es, i), es[i].address, es[i].min) == Hooked(b) && b.at == r && b.from == es[i].address
    ensures k == Walk(pad.decoder, Before(pad, mem, es, i).mem, es[i].address, es[i].min).n
  {
    b := ReturnsBlock(pad, Run(pad, State(mem, 0, false), es[..i]).0, es[i].address, es[i].min, k, r);
  }

  // At the end of any run, calling the address that a hook returned does what the hooked code did before it
  // was hooked, for every meaning of instructions under which the copied ones can stand elsewhere.
  lemma EveryHookPreservesMeaning<M(!new)>(
      pad: Pad, mem: seq<byte>, es: seq<Event>, i: nat, eff: Effect<M>, m: M, s: State, k: nat, r: nat)
    requires Sound(pad.decoder) && Room(pad, mem) && AllAllowed(pad, |mem|, es) && i < |es| && |mem| < TWO64
    requires es[i].Hook? && s == Before(pad, mem, es, i) && r == Gets(pad, mem, es, i) && r != 0
    requires ReachesAt(pad.decoder, s.mem, es[i].address, es[i].min, k) && es[i].address + es[i].min + 15 < TWO64
    requires Copyable(pad.decoder, s.mem, eff, es[i].address, k)
    ensures SamePassage(pad.decoder, s.mem, Run(pad, State(mem, 0, false), es).0.mem, eff, es[i].address, r, k, m)
  {
    var b := GetsBlock(pad, mem, es, i, k, r);
    HookTakesWholeInstructions(pad, s, es[i].address, es[i].min);
    BlockSurvives(pad, mem, es, i);
    TrampolinePreservesMeaning(pad.decoder, s.mem, Run(pad, State(mem, 0, false), es).0.mem, eff, b, k, m);
  }

  // What a hook takes from memory is a copy of relocatable instructions.
  lemma HookCopies<M(!new)>(pad: Pad, s: State, address: nat, min: int, eff: Effect<M>)
    requires Sound(pad.decoder) && Plan(pad, s, address, min).Hooked? && address + min + 15 < TWO64
    requires Copyable(pad.decoder, s.mem, eff, address, Walk(pad.decoder, s.mem, address, min).n)
    ensures Plan(pad, s, address, min).block.from == address
    ensures Copies(pad.decoder, s.mem, eff, Plan(pad, s, address, min).block, Walk(pad.decoder, s.mem, address, min).n)
  {
    HookTakesWholeInstructions(pad, s, address, min);
  }

  // The hooked function as a whole: after any run, calling the address that a hook returned does for any number of
  // steps what the function did before, as long as it stays in code that the run did not change.
  lemma EveryHookRunsOn<M(!new)>(
      pad: Pad, mem: seq<byte>, es: seq<Event>, i: nat, eff: Effect<M>, m: M, n: nat, s: State, k: nat, r: nat,
      after: seq<byte>)
    requires Sound(pad.decoder) && Room(pad, mem) && AllAllowed(pad, |mem|, es) && i < |es| && |mem| < TWO64
    requires es[i].Hook? && s == Before(pad, mem, es, i) && after == Run(pad, State(mem, 0, false), es).0.mem
    requires r == Gets(pad, mem, es, i) && r != 0
    requires ReachesAt(pad.decoder, s.mem, es[i].address, es[i].min, k) && es[i].address + es[i].min + 15 < TWO64
    requires Copyable(pad.decoder, s.mem, eff, es[i].address, k)
    requires StaysShared(pad.decoder, s.mem, after, eff, n, Behind(pad.decoder, s.mem, eff, es[i].address, k, m))
    ensures RunsOn(pad.decoder, s.mem, after, eff, es[i].address, r, k, m, n)
  {
    var b := GetsBlock(pad, mem, es, i, k, r);
    HookCopies(pad, s, es[i].address, es[i].min, eff);
    BlockSurvives(pad, mem, es, i);
    WholeRunIsPreserved(pad.decoder, s.mem, after, eff, b, k, m, n);
  }

  // Redirecting a hooked function leaves every byte from the return address on alone.
  lemma LongPatchSparesReturn(pad: Pad, s: State, address: nat, min: int, dst: nat)
    requires Sound(pad.decoder) && Plan(pad, s, address, min).Hooked? && min >= 14
    requires address + 14 <= |s.mem| && dst < TWO64 && address + 6 < TWO64
    ensures var b, mem' := Plan(pad, s, address, min).block, WithJump64(s.mem, address, dst);
            && (forall k: nat :: b.from + |b.code| <= k ==> At(mem', k) == At(s.mem, k))
            && IsJumpThroughMemory(mem', address) && JumpTarget(mem', address) == dst
  {
    HookTakesWholeInstructions(pad, s, address, min);
    WithJump64IsJump(s.mem, address, dst);
    Jump64Goes(WithJump64(s.mem, address, dst), address, dst);
  }

  lemma ShortPatchSparesReturn(pad: Pad, s: State, address: nat, min: int, dst: nat, call: bool)
    requires Sound(pad.decoder) && Plan(pad, s, address, min).Hooked?
    requires address + min <= |s.mem| && 0 < dst < TWO64
    ensures var b, mem' := Plan(pad, s, address, min).block, WithJump32(s.mem, address, dst, min, call);
            && (forall k: nat :: b.from + |b.code| <= k ==> At(mem', k) == At(s.mem, k))
            && (ReadLEA32(mem', address, 0, 1, JMP_CALL_BYTES) == dst <==> InReach(address, dst))
  {
    HookTakesWholeInstructions(pad, s, address, min);
    WithJump32Holds(s.mem, address, dst, min, call);
    Jump32RoundTrip(s.mem, address, dst, min, call);
  }
}
