/** What a run of hooks and patches writes, and code that it leaves alone. */
module HookFrames {
  import opened Bytes
  import opened Decoders
  import opened Branches
  import opened CodeCave
  import opened Trampoline
  import opened HookRuns
  import DecoderLaws

  // ---------------------------------------------------------------- the bytes that a run writes

  // No byte of the pad, nor of what a hook may write behind it.
  predicate OffPad(pad: Pad, k: nat) {
    k < pad.base || pad.base + pad.capacity + 8 <= k
  }

  predicate OffPatch(e: Event, k: nat) {
    e.Patch? ==> k < e.at || e.at + |e.data| <= k
  }

  // The bytes that no event from i on writes.
  ghost function Untouched(pad: Pad, es: seq<Event>, i: nat): iset<nat> {
    iset k: nat | OffPad(pad, k) && forall j :: i <= j < |es| ==> OffPatch(es[j], k)
  }

  lemma InitFrame(pad: Pad, s: State, k: nat)
    requires Room(pad, s.mem) && OffPad(pad, k)
    ensures At(InitCave(pad, s).mem, k) == At(s.mem, k)
  {
  }

  lemma HookFrame(pad: Pad, s: State, address: nat, min: int, k: nat)
    requires Sound(pad.decoder) && Room(pad, s.mem) && OffPad(pad, k)
    ensures At(CreateHook(pad, s, address, min).0.mem, k) == At(s.mem, k)
  {
    InitFrame(pad, s, k);
  }

  // A run changes the pad and what its patches cover, and nothing else.
  lemma {:induction false} RunFrame(pad: Pad, s: State, es: seq<Event>, i: nat, k: nat)
    requires Sound(pad.decoder) && Room(pad, s.mem) && AllAllowed(pad, |s.mem|, es) && i <= |es|
    requires k in Untouched(pad, es, i)
    ensures At(Run(pad, s, es).0.mem, k) == At(Run(pad, s, es[..i]).0.mem, k)
    decreases |es|
  {
    if i == |es| {
      assert es[..i] == es;
    } else {
      var before, e := es[..|es| - 1], es[|es| - 1];
      assert before[..i] == es[..i];
      RunFrame(pad, s, before, i, k);
      var s1 := Run(pad, s, before).0;
      assert OffPatch(e, k);
      match e {
        case Patch(at, data) =>
        case Hook(address, min) => HookFrame(pad, s1, address, min, k);
      }
    }
  }

  // ---------------------------------------------------------------- code that is left alone

  ghost predicate Keeps(kept: iset<nat>, a: nat, n: nat) {
    forall k: nat :: a <= k < a + n ==> k in kept
  }

  // What decides the step at pc is kept: a jump through memory and the target it reads, or a clean instruction.
  // At least two bytes are looked at, to tell which.
  ghost predicate KeptAt(d: Decoder, m: seq<byte>, pc: nat, kept: iset<nat>) {
    if IsJumpThroughMemory(m, pc) then Keeps(kept, pc, 6) && Keeps(kept, JumpSlot(m, pc), 8)
    else CleanAt(d, m, pc) && Keeps(kept, pc, 2) && Keeps(kept, pc, d(m, pc).len)
  }

  // The next n steps only run through kept code.
  ghost predicate StaysKept<M(!new)>(d: Decoder, m: seq<byte>, eff: Effect<M>, n: nat, c: Config<M>, kept: iset<nat>)
    decreases n
  {
    n == 0 || (KeptAt(d, m, c.pc, kept) && StaysKept(d, m, eff, n - 1, Step(d, m, eff, c), kept))
  }

  // Two memories that hold the same kept bytes.
  ghost predicate SameKept(m: seq<byte>, m': seq<byte>, kept: iset<nat>) {
    forall k: nat :: k in kept ==> At(m', k) == At(m, k)
  }

  lemma KeptAgree(m: seq<byte>, m': seq<byte>, kept: iset<nat>, a: nat, n: nat)
    requires SameKept(m, m', kept) && Keeps(kept, a, n)
    ensures Agree(m, a, m', a, n)
  {
    forall i | 0 <= i < n ensures Nth(m, a, i) == Nth(m', a, i) {
      assert At(m', a + i) == At(m, a + i);
    }
  }

  lemma KeptIsShared(d: Decoder, m: seq<byte>, m': seq<byte>, pc: nat, kept: iset<nat>)
    requires SameKept(m, m', kept) && KeptAt(d, m, pc, kept)
    ensures SharedAt(d, m, m', pc)
  {
    assert pc in kept && pc + 1 in kept;
    if IsJumpThroughMemory(m, pc) {
      var slot := JumpSlot(m, pc);
      assert Keeps(kept, pc + 2, 4);
      KeptAgree(m, m', kept, pc + 2, 4);
      DecoderLaws.LeAgrees(m, pc + 2, m', pc + 2, 0, DWORD);
      KeptAgree(m, m', kept, slot, 8);
      DecoderLaws.LeAgrees(m, slot, m', slot, 0, QWORD);
    } else {
      KeptAgree(m, m', kept, pc, d(m, pc).len);
    }
  }

  lemma {:induction false} KeptRunIsShared<M(!new)>(
      d: Decoder, m: seq<byte>, m': seq<byte>, eff: Effect<M>, n: nat, c: Config<M>, kept: iset<nat>)
    requires SameKept(m, m', kept) && StaysKept(d, m, eff, n, c, kept)
    ensures StaysShared(d, m, m', eff, n, c)
    decreases n
  {
    if n > 0 {
      KeptIsShared(d, m, m', c.pc, kept);
      KeptRunIsShared(d, m, m', eff, n - 1, Step(d, m, eff, c), kept);
    }
  }

  // What was in memory when event i came is there at the end, but for what the events from i on write.
  lemma BeforeIsKept(pad: Pad, mem: seq<byte>, es: seq<Event>, i: nat)
    requires Sound(pad.decoder) && Room(pad, mem) && AllAllowed(pad, |mem|, es) && i <= |es|
    ensures SameKept(Before(pad, mem, es, i).mem, Run(pad, State(mem, 0, false), es).0.mem, Untouched(pad, es, i))
  {
    var s0 := State(mem, 0, false);
    forall k: nat | k in Untouched(pad, es, i)
      ensures At(Run(pad, s0, es).0.mem, k) == At(Before(pad, mem, es, i).mem, k)
    {
      RunFrame(pad, s0, es, i, k);
      InitFrame(pad, Run(pad, s0, es[..i]).0, k);
    }
  }

  // The hooked function as a whole, with a condition on the memory before the hook alone: behind the copied
  // instructions it runs through code that lies clear of the pad and of everything patched from then on.
  lemma FunctionSurvivesRun<M(!new)>(
      pad: Pad, mem: seq<byte>, es: seq<Event>, i: nat, eff: Effect<M>, m: M, n: nat, s: State, k: nat, r: nat)
    requires Sound(pad.decoder) && Room(pad, mem) && AllAllowed(pad, |mem|, es) && i < |es| && |mem| < TWO64
    requires es[i].Hook? && s == Before(pad, mem, es, i) && r == Gets(pad, mem, es, i) && r != 0
    requires ReachesAt(pad.decoder, s.mem, es[i].address, es[i].min, k) && es[i].address + es[i].min + 15 < TWO64
    requires Copyable(pad.decoder, s.mem, eff, es[i].address, k)
    requires StaysKept(pad.decoder, s.mem, eff, n, Behind(pad.decoder, s.mem, eff, es[i].address, k, m),
                       Untouched(pad, es, i))
    ensures RunsOn(pad.decoder, s.mem, Run(pad, State(mem, 0, false), es).0.mem, eff, es[i].address, r, k, m, n)
  {
    var after, c := Run(pad, State(mem, 0, false), es).0.mem, Behind(pad.decoder, s.mem, eff, es[i].address, k, m);
    BeforeIsKept(pad, mem, es, i);
    KeptRunIsShared(pad.decoder, s.mem, after, eff, n, c, Untouched(pad, es, i));
    EveryHookRunsOn(pad, mem, es, i, eff, m, n, s, k, r, after);
  }
}
