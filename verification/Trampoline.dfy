/** Why a hooked function still works: running a block of the pad does what the
    instructions it was copied from did, and comes out after them. */
module Trampoline {
  import opened Bytes
  import opened Decoders
  import opened Branches
  import opened CodeCave

  // ---------------------------------------------------------------- running code

  // What an instruction does to the machine: fall through to the next one or go elsewhere.
  datatype Outcome<+M> = Next(state: M) | Leave(target: nat, state: M)

  // Any meaning of instructions: it may depend on the address, the bytes and the machine state.
  type Effect<!M> = (nat, seq<byte>, M) -> Outcome<M>

  // An instruction that does the same wherever it stands.
  ghost predicate Relocatable<M(!new)>(eff: Effect<M>, code: seq<byte>) {
    forall a, m :: eff(a, code, m) == eff(0, code, m)
  }

  // The program counter and the rest of the machine.
  datatype Config<+M> = Config(pc: nat, state: M)

  function Step<M>(d: Decoder, mem: seq<byte>, eff: Effect<M>, c: Config<M>): Config<M> {
    if IsJumpThroughMemory(mem, c.pc) then Config(JumpTarget(mem, c.pc), c.state)
    else Execute(d, mem, eff, c)
  }

  function Execute<M>(d: Decoder, mem: seq<byte>, eff: Effect<M>, c: Config<M>): Config<M> {
    var len := d(mem, c.pc).len;
    match eff(c.pc, Slice(mem, c.pc, len), c.state)
    case Next(m) => Config(c.pc + len, m)
    case Leave(target, m) => Config(target, m)
  }

  // Where the machine is after n steps.
  function RunFor<M>(d: Decoder, mem: seq<byte>, eff: Effect<M>, n: nat, c: Config<M>): Config<M>
    decreases n
  {
    if n == 0 then c else RunFor(d, mem, eff, n - 1, Step(d, mem, eff, c))
  }

  lemma {:induction false} OneMoreStep<M>(d: Decoder, mem: seq<byte>, eff: Effect<M>, n: nat, c: Config<M>)
    ensures RunFor(d, mem, eff, n + 1, c) == Step(d, mem, eff, RunFor(d, mem, eff, n, c))
    decreases n
  {
    if n > 0 {
      var c' := Step(d, mem, eff, c);
      OneMoreStep(d, mem, eff, n - 1, c');
      assert RunFor(d, mem, eff, n + 1, c) == RunFor(d, mem, eff, n, c');
    } else {
      var c' := Step(d, mem, eff, c);
      assert RunFor(d, mem, eff, 1, c) == RunFor(d, mem, eff, 0, c');
    }
  }

  // ---------------------------------------------------------------- copied code

  // The instruction at pc decodes without error, is no jump through memory, and does the same elsewhere.
  ghost predicate CopyableAt<M(!new)>(d: Decoder, mem: seq<byte>, eff: Effect<M>, pc: nat) {
    CleanAt(d, mem, pc) && !IsJumpThroughMemory(mem, pc) && Relocatable(eff, Slice(mem, pc, d(mem, pc).len))
  }

  ghost predicate Copyable<M(!new)>(d: Decoder, mem: seq<byte>, eff: Effect<M>, a: nat, k: nat)
    decreases k
  {
    k == 0 || (CopyableAt(d, mem, eff, a) && Copyable(d, mem, eff, a + d(mem, a).len, k - 1))
  }

  lemma AgreeWithin(m: seq<byte>, a: nat, m': seq<byte>, b: nat, n: nat, from: nat, len: nat)
    requires Agree(m, a, m', b, n) && from + len <= n
    ensures Agree(m, a + from, m', b + from, len)
  {
    var a', b' := a + from, b + from;
    forall i | 0 <= i < len ensures Nth(m, a', i) == Nth(m', b', i) {
      assert Nth(m, a, from + i) == Nth(m', b, from + i);
    }
  }

  lemma AgreeSlice(m: seq<byte>, a: nat, m': seq<byte>, b: nat, len: nat)
    requires Agree(m, a, m', b, len)
    ensures Slice(m, a, len) == Slice(m', b, len)
  {
    var s, s' := Slice(m, a, len), Slice(m', b, len);
    forall i | 0 <= i < len ensures s[i] == s'[i] {
      assert Nth(m, a, i) == Nth(m', b, i);
    }
  }

  // A copied instruction decodes as the original.
  lemma SameInstruction(d: Decoder, m: seq<byte>, a: nat, m': seq<byte>, b: nat, n: nat)
    requires Sound(d) && CleanAt(d, m, a) && d(m, a).len <= n && Agree(m, a, m', b, n)
    ensures d(m', b) == d(m, a)
    ensures Slice(m', b, d(m, a).len) == Slice(m, a, d(m, a).len)
    ensures Agree(m, a + d(m, a).len, m', b + d(m, a).len, n - d(m, a).len)
  {
    var len := d(m, a).len;
    AgreeWithin(m, a, m', b, n, 0, len);
    AgreeWithin(m, a, m', b, n, len, n - len);
    assert Agree(m, a, m', b, d(m, a).len);
    AgreeSlice(m, a, m', b, len);
  }

  // A copy splits into the same instructions as the original.
  lemma {:induction false} SameBoundaries(d: Decoder, m: seq<byte>, a: nat, m': seq<byte>, b: nat, n: nat, k: nat)
    requires Sound(d) && Clean(d, m, a, k) && Span(d, m, a, k) <= n && Agree(m, a, m', b, n)
    ensures Clean(d, m', b, k) && Span(d, m', b, k) == Span(d, m, a, k)
    decreases k
  {
    if k > 0 {
      var len := d(m, a).len;
      SameInstruction(d, m, a, m', b, n);
      SameBoundaries(d, m, a + len, m', b + len, n - len, k - 1);
    }
  }

  // ---------------------------------------------------------------- lockstep

  // How a straight run of code ends, and after how many steps.
  datatype Passage<+M> = Passage(steps: nat, end: Outcome<M>)

  // The first k instructions from a, unless one of them goes elsewhere.
  function Through<M>(d: Decoder, mem: seq<byte>, eff: Effect<M>, a: nat, k: nat, m: M): Passage<M>
    decreases k
  {
    if k == 0 then Passage(0, Next(m))
    else
      var len := d(mem, a).len;
      match eff(a, Slice(mem, a, len), m)
      case Leave(target, m') => Passage(1, Leave(target, m'))
      case Next(m') =>
        var rest := Through(d, mem, eff, a + len, k - 1, m');
        Passage(1 + rest.steps, rest.end)
  }

  // A copy does what the original does.
  lemma {:induction false} CopyDoesTheSame<M(!new)>(
      d: Decoder, mem: seq<byte>, mem': seq<byte>, eff: Effect<M>, a: nat, b: nat, n: nat, k: nat, m: M)
    requires Sound(d) && Copyable(d, mem, eff, a, k) && Span(d, mem, a, k) <= n && Agree(mem, a, mem', b, n)
    ensures Through(d, mem', eff, b, k, m) == Through(d, mem, eff, a, k, m)
    decreases k
  {
    if k > 0 {
      var len := d(mem, a).len;
      SameInstruction(d, mem, a, mem', b, n);
      var code := Slice(mem, a, len);
      assert eff(a, code, m) == eff(0, code, m) == eff(b, code, m);
      match eff(a, code, m) {
        case Next(m') => CopyDoesTheSame(d, mem, mem', eff, a + len, b + len, n - len, k - 1, m');
        case Leave(_, _) =>
      }
    }
  }

  // A straight run of code is what the steps of the machine make of it.
  lemma {:induction false} ThroughIsARun<M(!new)>(d: Decoder, mem: seq<byte>, eff: Effect<M>, a: nat, k: nat, m: M)
    requires Copyable(d, mem, eff, a, k)
    ensures var n := Through(d, mem, eff, a, k, m).steps;
            match Through(d, mem, eff, a, k, m).end
            case Next(m') => n == k && RunFor(d, mem, eff, n, Config(a, m)) == Config(a + Span(d, mem, a, k), m')
            case Leave(target, m') => 0 < n <= k && RunFor(d, mem, eff, n, Config(a, m)) == Config(target, m')
    decreases k
  {
    if k > 0 {
      var len := d(mem, a).len;
      var c := Step(d, mem, eff, Config(a, m));
      match eff(a, Slice(mem, a, len), m) {
        case Next(m') => ThroughIsARun(d, mem, eff, a + len, k - 1, m');
        case Leave(target, m') => assert RunFor(d, mem, eff, 1, Config(a, m)) == RunFor(d, mem, eff, 0, c);
      }
    }
  }

  // ---------------------------------------------------------------- trampolines

  // The block is the copy of k whole instructions of mem, which is the code before any hook.
  ghost predicate Copies<M(!new)>(d: Decoder, mem: seq<byte>, eff: Effect<M>, b: Block, k: nat) {
    && Copyable(d, mem, eff, b.from, k) && Span(d, mem, b.from, k) == |b.code|
    && b.code == Slice(mem, b.from, |b.code|) && b.from + |b.code| < TWO64
  }

  lemma BlockEndsInJump(mem: seq<byte>, b: Block)
    requires Intact(mem, b)
    ensures Jump64At(mem, b.at + |b.code|, b.from + |b.code|)
  {
    BlockParts(mem, b);
  }

  // The jump at the end of a block goes to the instruction after the ones it copied.
  lemma BlockJumpsBack(mem: seq<byte>, b: Block)
    requires Intact(mem, b) && b.from + |b.code| < TWO64 && b.at + |b.code| + 6 < TWO64
    ensures IsJumpThroughMemory(mem, b.at + |b.code|)
    ensures JumpTarget(mem, b.at + |b.code|) == b.from + |b.code|
  {
    BlockEndsInJump(mem, b);
    Jump64Goes(mem, b.at + |b.code|, b.from + |b.code|);
  }

  lemma SlicesAgree(m: seq<byte>, a: nat, m': seq<byte>, b: nat, n: nat)
    requires Slice(m, a, n) == Slice(m', b, n)
    ensures Agree(m, a, m', b, n)
  {
    forall i | 0 <= i < n ensures Nth(m, a, i) == Nth(m', b, i) {
      assert Slice(m, a, n)[i] == Slice(m', b, n)[i];
    }
  }

  // A copy that no 0x25 byte follows can itself be copied.
  lemma {:induction false} CopyIsCopyable<M(!new)>(
      d: Decoder, mem: seq<byte>, mem': seq<byte>, eff: Effect<M>, a: nat, b: nat, n: nat, k: nat)
    requires Sound(d) && Copyable(d, mem, eff, a, k) && Span(d, mem, a, k) == n && Agree(mem, a, mem', b, n)
    requires At(mem', b + n) != 0x25
    ensures Copyable(d, mem', eff, b, k) && Span(d, mem', b, k) == n
    decreases k
  {
    if k > 0 {
      var len := d(mem, a).len;
      SameInstruction(d, mem, a, mem', b, n);
      assert Nth(mem, a, 0) == Nth(mem', b, 0);
      if n > 1 {
        assert Nth(mem, a, 1) == Nth(mem', b, 1);
      }
      CopyIsCopyable(d, mem, mem', eff, a + len, b + len, n - len, k - 1);
    }
  }

  lemma BlockIsCopyable<M(!new)>(d: Decoder, before: seq<byte>, after: seq<byte>, eff: Effect<M>, b: Block, k: nat)
    requires Sound(d) && Copies(d, before, eff, b, k) && Intact(after, b)
    ensures Copyable(d, after, eff, b.at, k) && Span(d, after, b.at, k) == |b.code|
    ensures Agree(before, b.from, after, b.at, |b.code|)
  {
    BlockParts(after, b);
    SlicesAgree(before, b.from, after, b.at, |b.code|);
    StubHasNoDisplacement(after, b.at + |b.code|);
    CopyIsCopyable(d, before, after, eff, b.from, b.at, |b.code|, k);
  }

  lemma JumpsBack<M>(d: Decoder, mem: seq<byte>, eff: Effect<M>, b: Block, n: nat, c: Config<M>, m: M)
    requires Intact(mem, b) && b.from + |b.code| < TWO64 && b.at + |b.code| + 6 < TWO64
    requires RunFor(d, mem, eff, n, c) == Config(b.at + |b.code|, m)
    ensures RunFor(d, mem, eff, n + 1, c) == Config(b.from + |b.code|, m)
  {
    OneMoreStep(d, mem, eff, n, c);
    BlockJumpsBack(mem, b);
  }

  // A run from address from, before the hook, and one from entry, afterwards.
  // Both runs come out behind the copied instructions in the same state, the block's one step later for the
  // jump back, or leave them at the same instruction for the same place in the same state.
  ghost predicate SamePassage<M>(
      d: Decoder, before: seq<byte>, after: seq<byte>, eff: Effect<M>, from: nat, entry: nat, k: nat, m: M) {
    var n, behind := Through(d, before, eff, from, k, m).steps, from + Span(d, before, from, k);
    match Through(d, before, eff, from, k, m).end
    case Next(m') =>
      && n == k
      && RunFor(d, before, eff, n, Config(from, m)) == Config(behind, m')
      && RunFor(d, after, eff, n + 1, Config(entry, m)) == Config(behind, m')
    case Leave(target, m') =>
      && 0 < n <= k
      && RunFor(d, before, eff, n, Config(from, m)) == Config(target, m')
      && RunFor(d, after, eff, n, Config(entry, m)) == Config(target, m')
  }

  // Calling the block is calling the code as it was before the hook: whatever instructions mean,
  // both come out after the copied instructions in the same state, or leave them at the same
  // instruction for the same place in the same state.
  lemma TrampolinePreservesMeaning<M(!new)>(
      d: Decoder, before: seq<byte>, after: seq<byte>, eff: Effect<M>, b: Block, k: nat, m: M)
    requires Sound(d) && Copies(d, before, eff, b, k) && Intact(after, b) && b.at + |b.code| + 6 < TWO64
    ensures SamePassage(d, before, after, eff, b.from, b.at, k, m)
  {
    BlockIsCopyable(d, before, after, eff, b, k);
    CopyDoesTheSame(d, before, after, eff, b.from, b.at, |b.code|, k, m);
    ThroughIsARun(d, before, eff, b.from, k, m);
    ThroughIsARun(d, after, eff, b.at, k, m);
    match Through(d, before, eff, b.from, k, m).end {
      case Next(m') => JumpsBack(d, after, eff, b, k, Config(b.at, m), m');
      case Leave(_, _) =>
    }
  }

  // ---------------------------------------------------------------- what runs afterwards

  // What the machine does at pc is the same in both memories: the same jump, or the same clean instruction.
  ghost predicate SharedAt(d: Decoder, m: seq<byte>, m': seq<byte>, pc: nat) {
    && IsJumpThroughMemory(m', pc) == IsJumpThroughMemory(m, pc)
    && if IsJumpThroughMemory(m, pc) then JumpTarget(m', pc) == JumpTarget(m, pc)
       else CleanAt(d, m, pc) && Agree(m, pc, m', pc, d(m, pc).len)
  }

  // The next n steps only run through code that both memories share.
  ghost predicate StaysShared<M(!new)>(d: Decoder, m: seq<byte>, m': seq<byte>, eff: Effect<M>, n: nat, c: Config<M>)
    decreases n
  {
    n == 0 || (SharedAt(d, m, m', c.pc) && StaysShared(d, m, m', eff, n - 1, Step(d, m, eff, c)))
  }

  lemma SharedStep<M>(d: Decoder, m: seq<byte>, m': seq<byte>, eff: Effect<M>, c: Config<M>)
    requires Sound(d) && SharedAt(d, m, m', c.pc)
    ensures Step(d, m', eff, c) == Step(d, m, eff, c)
  {
    if !IsJumpThroughMemory(m, c.pc) {
      SameInstruction(d, m, c.pc, m', c.pc, d(m, c.pc).len);
    }
  }

  lemma {:induction false} SharedRun<M(!new)>(
      d: Decoder, m: seq<byte>, m': seq<byte>, eff: Effect<M>, n: nat, c: Config<M>)
    requires Sound(d) && StaysShared(d, m, m', eff, n, c)
    ensures RunFor(d, m', eff, n, c) == RunFor(d, m, eff, n, c)
    decreases n
  {
    if n > 0 {
      SharedStep(d, m, m', eff, c);
      SharedRun(d, m, m', eff, n - 1, Step(d, m, eff, c));
    }
  }

  ghost predicate StepsFirst<C>(run: (nat, C) -> C, step: C -> C, k: nat, c: C) {
    run(k + 1, c) == run(k, step(c))
  }

  // Whatever runs step by step runs i + n steps as i steps and then n.
  lemma {:induction false} StepsAdd<C(!new)>(run: (nat, C) -> C, step: C -> C, i: nat, n: nat, c: C)
    requires forall c' :: run(0, c') == c'
    requires forall k: nat, c' :: StepsFirst(run, step, k, c')
    ensures run(i + n, c) == run(n, run(i, c))
    decreases i
  {
    if i > 0 {
      assert StepsFirst(run, step, i - 1, c) && StepsFirst(run, step, i - 1 + n, c);
      StepsAdd(run, step, i - 1, n, step(c));
    }
  }

  lemma FirstStep<M>(d: Decoder, mem: seq<byte>, eff: Effect<M>, k: nat, c: Config<M>)
    ensures RunFor(d, mem, eff, k + 1, c) == RunFor(d, mem, eff, k, Step(d, mem, eff, c))
  {
  }

  lemma RunForAdds<M(!new)>(d: Decoder, mem: seq<byte>, eff: Effect<M>, i: nat, n: nat, c: Config<M>)
    ensures RunFor(d, mem, eff, i + n, c) == RunFor(d, mem, eff, n, RunFor(d, mem, eff, i, c))
  {
    var run := (k: nat, c': Config<M>) => RunFor(d, mem, eff, k, c');
    var step := (c': Config<M>) => Step(d, mem, eff, c');
    forall k: nat, c' ensures StepsFirst(run, step, k, c') {
      FirstStep(d, mem, eff, k, c');
    }
    StepsAdd(run, step, i, n, c);
  }

  // Where running the copied instructions leads, before the hook.
  function Behind<M>(d: Decoder, mem: seq<byte>, eff: Effect<M>, from: nat, k: nat, m: M): Config<M> {
    match Through(d, mem, eff, from, k, m).end
    case Next(m') => Config(from + Span(d, mem, from, k), m')
    case Leave(target, m') => Config(target, m')
  }

  // The steps that the block takes to get there: one more for the jump back.
  function BlockSteps<M>(p: Passage<M>): nat {
    if p.end.Next? then p.steps + 1 else p.steps
  }

  lemma BothGetBehind<M(!new)>(
      d: Decoder, before: seq<byte>, after: seq<byte>, eff: Effect<M>, b: Block, k: nat, m: M)
    requires Sound(d) && Copies(d, before, eff, b, k) && Intact(after, b) && b.at + |b.code| + 6 < TWO64
    ensures var p, c := Through(d, before, eff, b.from, k, m), Behind(d, before, eff, b.from, k, m);
            && RunFor(d, before, eff, p.steps, Config(b.from, m)) == c
            && RunFor(d, after, eff, BlockSteps(p), Config(b.at, m)) == c
  {
    TrampolinePreservesMeaning(d, before, after, eff, b, k, m);
  }

  // n steps after step i of one run and step j of the other, the machine is in the same configuration.
  ghost predicate Meet<M>(d: Decoder, before: seq<byte>, after: seq<byte>, eff: Effect<M>,
                          i: nat, from: Config<M>, j: nat, at: Config<M>, n: nat) {
    RunFor(d, before, eff, i + n, from) == RunFor(d, after, eff, j + n, at)
  }

  lemma RunsJoin<M(!new)>(d: Decoder, before: seq<byte>, after: seq<byte>, eff: Effect<M>,
                          i: nat, from: Config<M>, j: nat, at: Config<M>, n: nat, c: Config<M>)
    requires Sound(d) && StaysShared(d, before, after, eff, n, c)
    requires RunFor(d, before, eff, i, from) == c && RunFor(d, after, eff, j, at) == c
    ensures Meet(d, before, after, eff, i, from, j, at, n)
  {
    SharedRun(d, before, after, eff, n, c);
    RunForAdds(d, before, eff, i, n, from);
    RunForAdds(d, after, eff, j, n, at);
  }

  // n steps behind the copied instructions, the run that starts at entry is where the run from `from` was before
  // the hook.
  ghost predicate RunsOn<M>(
      d: Decoder, before: seq<byte>, after: seq<byte>, eff: Effect<M>, from: nat, entry: nat, k: nat, m: M, n: nat) {
    var p := Through(d, before, eff, from, k, m);
    Meet(d, before, after, eff, p.steps, Config(from, m), BlockSteps(p), Config(entry, m), n)
  }

  // Calling the block runs the whole function as it was: for as long as the code behind the copied
  // instructions is shared, both runs are at the same place in the same state, one step apart for the jump back.
  lemma WholeRunIsPreserved<M(!new)>(
      d: Decoder, before: seq<byte>, after: seq<byte>, eff: Effect<M>, b: Block, k: nat, m: M, n: nat)
    requires Sound(d) && Copies(d, before, eff, b, k) && Intact(after, b) && b.at + |b.code| + 6 < TWO64
    requires StaysShared(d, before, after, eff, n, Behind(d, before, eff, b.from, k, m))
    ensures RunsOn(d, before, after, eff, b.from, b.at, k, m, n)
  {
    var p, c := Through(d, before, eff, b.from, k, m), Behind(d, before, eff, b.from, k, m);
    BothGetBehind(d, before, after, eff, b, k, m);
    RunsJoin(d, before, after, eff, p.steps, Config(b.from, m), BlockSteps(p), Config(b.at, m), n, c);
  }
}
