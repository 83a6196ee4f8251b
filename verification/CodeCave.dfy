/** Prologue hooks: whole instructions are copied to a pad of executable memory,
    one block after another, each followed by a jump back. */
module CodeCave {
  import opened Bytes
  import opened Hde64
  import opened Decoders
  import opened Branches

  // ---------------------------------------------------------------- walking instructions

  // The bytes that the first k instructions from a span.
  function Span(d: Decoder, mem: seq<byte>, a: nat, k: nat): nat
    decreases k
  {
    if k == 0 then 0
    else
      var len := d(mem, a).len;
      len + Span(d, mem, a + len, k - 1)
  }

  // The first k instructions from a decode without error.
  ghost predicate Clean(d: Decoder, mem: seq<byte>, a: nat, k: nat)
    decreases k
  {
    k == 0 || (CleanAt(d, mem, a) && Clean(d, mem, a + d(mem, a).len, k - 1))
  }

  // The fewest instructions from a that cover min bytes: none if one of them has an error.
  datatype Count = Stuck | Count(n: nat)

  function Walk(d: Decoder, mem: seq<byte>, a: nat, min: int): Count
    requires Sound(d)
    decreases if min < 0 then 0 else min
  {
    if min <= 0 then Count(0)
    else if !CleanAt(d, mem, a) then Stuck
    else
      var len := d(mem, a).len;
      match Walk(d, mem, a + len, min - len)
      case Stuck => Stuck
      case Count(n) => Count(n + 1)
  }

  // The size of the whole instructions that cover min bytes from a; zero if they cannot be walked.
  function InstructionSize(d: Decoder, mem: seq<byte>, a: nat, min: int): nat
    requires Sound(d)
  {
    if a == 0 || Walk(d, mem, a, min).Stuck? then 0 else Span(d, mem, a, Walk(d, mem, a, min).n)
  }

  method GetInstructionSize(d: Decoder, mem: seq<byte>, a: nat, min: int) returns (size: nat)
    requires Sound(d)
    ensures size == InstructionSize(d, mem, a, min)
  {
    size := 0;
    if a == 0 {
      return 0;
    }
    ghost var whole := Walk(d, mem, a, min);
    while size < min
      invariant var rest := Walk(d, mem, a + size, min - size);
                && (whole.Stuck? <==> rest.Stuck?)
                && (whole.Count? ==> Span(d, mem, a, whole.n) == size + Span(d, mem, a + size, rest.n))
      decreases min - size
    {
      var hs := d(mem, a + size);
      if F_ERROR in hs.flags {
        return 0;
      }
      size := size + hs.len;
    }
  }

  // The k-th instruction is the first whose end reaches min.
  ghost predicate ReachesAt(d: Decoder, mem: seq<byte>, a: nat, min: int, k: nat) {
    k > 0 && Clean(d, mem, a, k) && Span(d, mem, a, k - 1) < min <= Span(d, mem, a, k)
  }

  // The instruction after the first k starts before min and has an error.
  ghost predicate StuckAt(d: Decoder, mem: seq<byte>, a: nat, min: int, k: nat) {
    Clean(d, mem, a, k) && Span(d, mem, a, k) < min && !CleanAt(d, mem, a + Span(d, mem, a, k))
  }

  lemma {:induction false} WalkReaches(d: Decoder, mem: seq<byte>, a: nat, min: int)
    requires Sound(d) && min > 0 && Walk(d, mem, a, min).Count?
    ensures ReachesAt(d, mem, a, min, Walk(d, mem, a, min).n)
    ensures Span(d, mem, a, Walk(d, mem, a, min).n) < min + 15
    decreases min
  {
    var len := d(mem, a).len;
    if min > len {
      WalkReaches(d, mem, a + len, min - len);
    } else {
      assert Walk(d, mem, a + len, min - len) == Count(0);
    }
  }

  lemma {:induction false} WalkSticks(d: Decoder, mem: seq<byte>, a: nat, min: int) returns (k: nat)
    requires Sound(d) && Walk(d, mem, a, min).Stuck?
    ensures StuckAt(d, mem, a, min, k)
    decreases min
  {
    k := 0;
    if CleanAt(d, mem, a) {
      var len := d(mem, a).len;
      k := WalkSticks(d, mem, a + len, min - len);
      assert a + len + Span(d, mem, a + len, k) == a + Span(d, mem, a, k + 1);
      k := k + 1;
    }
  }

  lemma {:induction false} StuckStopsTheWalk(d: Decoder, mem: seq<byte>, a: nat, min: int, k: nat)
    requires Sound(d) && StuckAt(d, mem, a, min, k)
    ensures Walk(d, mem, a, min).Stuck?
    decreases k
  {
    if k > 0 {
      var len := d(mem, a).len;
      assert a + len + Span(d, mem, a + len, k - 1) == a + Span(d, mem, a, k);
      StuckStopsTheWalk(d, mem, a + len, min - len, k - 1);
    }
  }

  // The walk counts the instructions up to the first one whose end reaches min.
  lemma {:induction false} ReachesDecides(d: Decoder, mem: seq<byte>, a: nat, min: int, k: nat)
    requires Sound(d) && min > 0 && ReachesAt(d, mem, a, min, k)
    ensures Walk(d, mem, a, min) == Count(k)
    decreases k
  {
    var len := d(mem, a).len;
    if k == 1 {
      assert Span(d, mem, a, 1) == len + Span(d, mem, a + len, 0);
      assert Walk(d, mem, a + len, min - len) == Count(0);
    } else {
      assert Span(d, mem, a, k - 1) == len + Span(d, mem, a + len, k - 2);
      assert Span(d, mem, a, k) == len + Span(d, mem, a + len, k - 1);
      ReachesDecides(d, mem, a + len, min - len, k - 1);
    }
  }

  // The size is that of the fewest whole instructions that cover min bytes; it is zero
  // exactly when an instruction with an error is met before that.
  lemma SizeIsLeast(d: Decoder, mem: seq<byte>, a: nat, min: int)
    requires Sound(d) && a != 0 && min > 0
    ensures InstructionSize(d, mem, a, min) == 0 <==> exists k: nat :: StuckAt(d, mem, a, min, k)
    ensures InstructionSize(d, mem, a, min) != 0 ==>
              && min <= InstructionSize(d, mem, a, min) < min + 15
              && exists k: nat :: ReachesAt(d, mem, a, min, k) && InstructionSize(d, mem, a, min) == Span(d, mem, a, k)
  {
    if k: nat :| StuckAt(d, mem, a, min, k) {
      StuckStopsTheWalk(d, mem, a, min, k);
    }
    if Walk(d, mem, a, min).Stuck? {
      var k := WalkSticks(d, mem, a, min);
    } else {
      WalkReaches(d, mem, a, min);
    }
  }

  // ---------------------------------------------------------------- the pad

  // mov eax, 1; ret
  const SELF_TEST: seq<byte> := [0xb8, 0x01, 0x00, 0x00, 0x00, 0xc3]

  // The pad: its address, its capacity, and the decoder that measures what is copied to it.
  datatype Pad = Pad(decoder: Decoder, base: nat, capacity: nat)

  // Process memory, the bytes of the pad in use, and whether the pad was filled.
  datatype State = State(mem: seq<byte>, used: nat, once: bool)

  // The memory reaches 8 bytes past the pad, as far as a hook may write.
  predicate Room(pad: Pad, mem: seq<byte>) {
    pad.base + pad.capacity + 8 <= |mem|
  }

  function Fill(n: nat): (s: seq<byte>)
    ensures |s| == n
  {
    seq<byte>(n, i => 0xcc)
  }

  function InitCave(pad: Pad, s: State): (s': State)
    requires Room(pad, s.mem)
    ensures |s'.mem| == |s.mem| && s'.used == s.used && s'.once
  {
    if s.once then s
    else s.(mem := Write(Write(s.mem, pad.base, SELF_TEST), pad.base, Fill(pad.capacity)), once := true)
  }

  // A block of the pad: where it is, where its instructions come from, and the instructions.
  datatype Block = Block(at: nat, from: nat, code: seq<byte>) {
    // The instructions, the jump, and the address after the original instructions.
    function Bytes(): seq<byte> {
      code + JMP_STUB + ToLe(from + |code|, QWORD)
    }
  }

  // The block that a hook of address makes; none if the instructions cannot be walked or do not fit.
  datatype Hooked = Refused | Hooked(block: Block) {
    // What the caller gets.
    function Address(): nat {
      if Hooked? then block.at else 0
    }
  }

  function Plan(pad: Pad, s: State, address: nat, min: int): Hooked
    requires Sound(pad.decoder)
  {
    var n := InstructionSize(pad.decoder, s.mem, address, min);
    if address == 0 || min < 5 || n == 0 || s.used + n + |JMP_STUB| > pad.capacity then Refused
    else Hooked(Block(pad.base + s.used, address, Slice(s.mem, address, n)))
  }

  function Install(s: State, b: Block): State
    requires b.at + |b.code| + 14 <= |s.mem|
  {
    s.(mem := Write(s.mem, b.at, b.Bytes()), used := s.used + |b.code| + 14)
  }

  function CreateHook(pad: Pad, s: State, address: nat, min: int): (r: (State, Hooked))
    requires Sound(pad.decoder) && Room(pad, s.mem)
    ensures Room(pad, r.0.mem) && |r.0.mem| == |s.mem|
  {
    var s1 := InitCave(pad, s);
    match Plan(pad, s1, address, min)
    case Refused => (s1, Refused)
    case Hooked(b) => (Install(s1, b), Hooked(b))
  }

  // ---------------------------------------------------------------- what one hook does

  // The code at address can be hooked: its first k instructions are whole, the fewest that cover min bytes, and
  // they and the jump behind them fit what is left of the pad.
  ghost predicate HookableBy(pad: Pad, s: State, address: nat, min: int, k: nat) {
    && address != 0 && min >= 5 && ReachesAt(pad.decoder, s.mem, address, min, k)
    && s.used + Span(pad.decoder, s.mem, address, k) + 6 <= pad.capacity
  }

  ghost predicate Hookable(pad: Pad, s: State, address: nat, min: int) {
    exists k: nat :: HookableBy(pad, s, address, min, k)
  }

  // What the caller of a hook gets.
  function Returned(pad: Pad, s: State, address: nat, min: int): nat
    requires Sound(pad.decoder) && Room(pad, s.mem)
  {
    CreateHook(pad, s, address, min).1.Address()
  }

  lemma PlanMade(pad: Pad, s: State, address: nat, min: int, k: nat)
    requires Sound(pad.decoder) && HookableBy(pad, s, address, min, k)
    ensures Plan(pad, s, address, min)
         == Hooked(Block(pad.base + s.used, address, Slice(s.mem, address, Span(pad.decoder, s.mem, address, k))))
  {
    ReachesDecides(pad.decoder, s.mem, address, min, k);
  }

  lemma PlanTaken(pad: Pad, s: State, address: nat, min: int) returns (k: nat)
    requires Sound(pad.decoder) && Plan(pad, s, address, min).Hooked?
    ensures HookableBy(pad, s, address, min, k)
  {
    k := Walk(pad.decoder, s.mem, address, min).n;
    WalkReaches(pad.decoder, s.mem, address, min);
  }

  // A caller gets zero exactly when the code cannot be hooked, and the next free place of the pad otherwise.
  lemma HookReturns(pad: Pad, s: State, address: nat, min: int)
    requires Sound(pad.decoder) && Room(pad, s.mem) && pad.base > 0
    ensures Returned(pad, s, address, min) == if Hookable(pad, InitCave(pad, s), address, min) then pad.base + s.used else 0
  {
    var s1 := InitCave(pad, s);
    if Plan(pad, s1, address, min).Hooked? {
      var k := PlanTaken(pad, s1, address, min);
    }
    if k: nat :| HookableBy(pad, s1, address, min, k) {
      PlanMade(pad, s1, address, min, k);
    }
  }

  // At r stand a copy of the n bytes at address, ff 25 00 00 00 00, and the address behind them; no other byte differs.
  ghost predicate BlockWritten(before: seq<byte>, after: seq<byte>, r: nat, address: nat, n: nat) {
    && Slice(after, r, n) == Slice(before, address, n)
    && Slice(after, r + n, 6) == [0xff, 0x25, 0, 0, 0, 0]
    && Slice(after, r + n + 6, 8) == ToLe(address + n, QWORD)
    && forall i: nat :: i < r || r + n + 14 <= i ==> At(after, i) == At(before, i)
  }

  // A hook writes its block at the address that it returns, once the pad is filled, and takes as much of the pad.
  lemma HookWrites(pad: Pad, s: State, address: nat, min: int, k: nat)
    requires Sound(pad.decoder) && Room(pad, s.mem) && HookableBy(pad, InitCave(pad, s), address, min, k)
    ensures var filled, s' := InitCave(pad, s), CreateHook(pad, s, address, min).0;
            var n := Span(pad.decoder, filled.mem, address, k);
            && s'.used == s.used + n + 14
            && BlockWritten(filled.mem, s'.mem, Returned(pad, s, address, min), address, n)
  {
    var s1 := InitCave(pad, s);
    var n := Span(pad.decoder, s1.mem, address, k);
    var b := Block(pad.base + s.used, address, Slice(s1.mem, address, n));
    PlanMade(pad, s1, address, min, k);
    PlanIsInstalled(pad, s, address, min, b);
    BlockIsWrittenAt(s1, b, n);
  }

  lemma PlanIsInstalled(pad: Pad, s: State, address: nat, min: int, b: Block)
    requires Sound(pad.decoder) && Room(pad, s.mem) && Plan(pad, InitCave(pad, s), address, min) == Hooked(b)
    ensures b.at + |b.code| + 14 <= |s.mem|
    ensures CreateHook(pad, s, address, min) == (Install(InitCave(pad, s), b), Hooked(b))
    ensures Returned(pad, s, address, min) == b.at
  {
  }

  lemma BlockIsWrittenAt(s: State, b: Block, n: nat)
    requires b.at + n + 14 <= |s.mem| && b.code == Slice(s.mem, b.from, n)
    ensures Install(s, b).used == s.used + n + 14 && BlockWritten(s.mem, Install(s, b).mem, b.at, b.from, n)
  {
    InstallWrites(s, b);
  }

  lemma InstallWrites(s: State, b: Block)
    requires b.at + |b.code| + 14 <= |s.mem|
    ensures var s', n := Install(s, b), |b.code|;
            && s'.used == s.used + n + 14
            && Slice(s'.mem, b.at, n) == b.code && Slice(s'.mem, b.at + n, 6) == JMP_STUB
            && Slice(s'.mem, b.at + n + 6, 8) == ToLe(b.from + n, QWORD)
            && forall i: nat :: i < b.at || b.at + n + 14 <= i ==> At(s'.mem, i) == At(s.mem, i)
  {
    BlockIsWritten(s, b);
    BlockParts(Install(s, b).mem, b);
    InstallFrame(s, b);
  }

  lemma InstallFrame(s: State, b: Block)
    requires b.at + |b.code| + 14 <= |s.mem|
    ensures forall i: nat :: i < b.at || b.at + |b.code| + 14 <= i ==> At(Install(s, b).mem, i) == At(s.mem, i)
  {
    assert |b.Bytes()| == |b.code| + 14;
  }

  lemma ThreeParts(a: seq<byte>, b: seq<byte>, c: seq<byte>)
    ensures var s, n, k := a + b + c, |a|, |a| + |b|; s[0..n] == a && s[n..k] == b && s[k..k + |c|] == c
  {
  }

  lemma BlockParts(mem: seq<byte>, b: Block)
    requires Slice(mem, b.at, |b.Bytes()|) == b.Bytes()
    ensures Slice(mem, b.at, |b.code|) == b.code
    ensures Slice(mem, b.at + |b.code|, 6) == JMP_STUB
    ensures Slice(mem, b.at + |b.code| + 6, 8) == ToLe(b.from + |b.code|, QWORD)
  {
    var n := |b.code|;
    SliceWithin(mem, b.at, n + 14, 0, n);
    SliceWithin(mem, b.at, n + 14, n, 6);
    SliceWithin(mem, b.at, n + 14, n + 6, 8);
    ThreeParts(b.code, JMP_STUB, ToLe(b.from + n, QWORD));
  }

  lemma BlockIsWritten(s: State, b: Block)
    requires b.at + |b.code| + 14 <= |s.mem|
    ensures Slice(Install(s, b).mem, b.at, |b.Bytes()|) == b.Bytes()
  {
    var bytes, mem' := b.Bytes(), Install(s, b).mem;
    forall i | 0 <= i < |bytes| ensures Slice(mem', b.at, |bytes|)[i] == bytes[i] {
      assert At(mem', b.at + i) == bytes[i];
    }
  }

  // A hook that is refused leaves the filled pad as it is.
  lemma RefusalChangesNothing(pad: Pad, s: State, address: nat, min: int)
    requires Sound(pad.decoder) && Room(pad, s.mem) && !Hookable(pad, InitCave(pad, s), address, min)
    ensures CreateHook(pad, s, address, min).0 == InitCave(pad, s)
  {
    if Plan(pad, InitCave(pad, s), address, min).Hooked? {
      var k := PlanTaken(pad, InitCave(pad, s), address, min);
      assert false;
    }
  }

  // The pad is filled with breakpoints once. Nothing else is touched, but for the check routine where it is longer
  // than the pad.
  lemma InitFills(pad: Pad, s: State, i: nat)
    requires Room(pad, s.mem)
    ensures var filled := InitCave(pad, s);
            && filled.once && filled.used == s.used
            && (if s.once || i < pad.base || (pad.base + pad.capacity <= i && pad.base + 6 <= i)
                then At(filled.mem, i) == At(s.mem, i)
                else i < pad.base + pad.capacity ==> At(filled.mem, i) == 0xcc)
  {
    if !s.once && pad.base <= i < pad.base + pad.capacity {
      assert Fill(pad.capacity)[i - pad.base] == 0xcc;
      assert At(InitCave(pad, s).mem, pad.base + (i - pad.base)) == Fill(pad.capacity)[i - pad.base];
    }
  }

  // The capacity check asks for 8 bytes too few: a hook stays inside the pad exactly when there is room for
  // the return address too, and runs over by at most 8 bytes when there is not.
  lemma HookStaysInside(pad: Pad, s: State, address: nat, min: int)
    requires Sound(pad.decoder) && Room(pad, s.mem) && s.used <= pad.capacity
    ensures var n := InstructionSize(pad.decoder, InitCave(pad, s).mem, address, min);
            var s' := CreateHook(pad, s, address, min).0;
            && s'.used <= pad.capacity + 8
            && (CreateHook(pad, s, address, min).1.Hooked? ==>
                  (s'.used <= pad.capacity <==> s.used + n + |JMP_STUB| + QWORD <= pad.capacity))
  {
  }

  // ---------------------------------------------------------------- runs

  // A run hooks functions and writes memory outside the pad, in any order.
  datatype Event = Hook(address: nat, min: int) | Patch(at: nat, data: seq<byte>)

  predicate Allowed(pad: Pad, size: nat, e: Event) {
    e.Hook? || (e.at + |e.data| <= size && (e.at + |e.data| <= pad.base || pad.base + pad.capacity + 8 <= e.at))
  }

  ghost predicate AllAllowed(pad: Pad, size: nat, es: seq<Event>) {
    forall i :: 0 <= i < |es| ==> Allowed(pad, size, es[i])
  }

  // The state after the events and the blocks made on the way.
  function Run(pad: Pad, s: State, es: seq<Event>): (r: (State, seq<Block>))
    requires Sound(pad.decoder) && Room(pad, s.mem) && AllAllowed(pad, |s.mem|, es)
    ensures |r.0.mem| == |s.mem|
  {
    if es == [] then (s, [])
    else
      var (s1, blocks) := Run(pad, s, es[..|es| - 1]);
      match es[|es| - 1]
      case Patch(at, data) => (s1.(mem := Write(s1.mem, at, data)), blocks)
      case Hook(address, min) =>
        var (s2, h) := CreateHook(pad, s1, address, min);
        (s2, if h.Hooked? then blocks + [h.block] else blocks)
  }

  // The bytes that blocks take.
  function Extent(blocks: seq<Block>): nat {
    if blocks == [] then 0 else Extent(blocks[..|blocks| - 1]) + |blocks[|blocks| - 1].code| + 14
  }

  ghost predicate Intact(mem: seq<byte>, b: Block) {
    b.at + |b.Bytes()| <= |mem| && Slice(mem, b.at, |b.Bytes()|) == b.Bytes()
  }

  // The blocks follow one another from the start of the pad, each as it was written,
  // and what is not used yet is filled once the pad was initialised.
  ghost predicate Laid(pad: Pad, s: State, blocks: seq<Block>) {
    && s.used == Extent(blocks) <= pad.capacity + 8
    && (forall i :: 0 <= i < |blocks| ==>
          blocks[i].at == pad.base + Extent(blocks[..i]) && Intact(s.mem, blocks[i]) && blocks[i].code != [])
    && (s.once ==> forall k :: pad.base + s.used <= k < pad.base + pad.capacity ==> At(s.mem, k) == 0xcc)
    && (blocks != [] ==> s.once)
  }

  lemma {:induction false} ExtentGrows(blocks: seq<Block>, i: nat, j: nat)
    requires i < j <= |blocks|
    ensures Extent(blocks[..i]) + |blocks[i].code| + 14 <= Extent(blocks[..j])
    decreases j
  {
    assert blocks[..j][..j - 1] == blocks[..j - 1];
    if i < j - 1 {
      ExtentGrows(blocks, i, j - 1);
    }
  }

  // Blocks lie in the order they were made and do not overlap.
  lemma BlocksAreDisjoint(pad: Pad, s: State, blocks: seq<Block>, i: nat, j: nat)
    requires Laid(pad, s, blocks) && i < j < |blocks|
    ensures blocks[i].at + |blocks[i].Bytes()| <= blocks[j].at
  {
    ExtentGrows(blocks, i, j);
  }

  lemma BlockEnds(pad: Pad, s: State, blocks: seq<Block>, i: nat)
    requires Laid(pad, s, blocks) && i < |blocks|
    ensures blocks[i].at + |blocks[i].Bytes()| <= pad.base + s.used
  {
    ExtentGrows(blocks, i, |blocks|);
    assert blocks[..|blocks|] == blocks;
  }

  // A write that stays clear of a block leaves it intact.
  lemma WriteKeepsIntact(mem: seq<byte>, b: Block, at: nat, data: seq<byte>)
    requires Intact(mem, b) && at + |data| <= |mem|
    requires at + |data| <= b.at || b.at + |b.Bytes()| <= at
    ensures Intact(Write(mem, at, data), b)
  {
    var mem' := Write(mem, at, data);
    forall k | b.at <= k < b.at + |b.Bytes()| ensures mem'[k] == mem[k] {
      assert At(mem', k) == At(mem, k);
    }
    assert mem'[b.at..b.at + |b.Bytes()|] == mem[b.at..b.at + |b.Bytes()|];
  }

  lemma PatchKeepsLaid(pad: Pad, s: State, blocks: seq<Block>, at: nat, data: seq<byte>)
    requires Laid(pad, s, blocks) && Allowed(pad, |s.mem|, Patch(at, data))
    ensures Laid(pad, s.(mem := Write(s.mem, at, data)), blocks)
  {
    forall i | 0 <= i < |blocks| ensures Intact(Write(s.mem, at, data), blocks[i]) {
      BlockEnds(pad, s, blocks, i);
      WriteKeepsIntact(s.mem, blocks[i], at, data);
    }
  }

  lemma InitKeepsLaid(pad: Pad, s: State, blocks: seq<Block>)
    requires Room(pad, s.mem) && Laid(pad, s, blocks)
    ensures Laid(pad, InitCave(pad, s), blocks)
  {
    if !s.once {
      var s' := InitCave(pad, s);
      forall k | pad.base <= k < pad.base + pad.capacity ensures At(s'.mem, k) == 0xcc {
        assert Fill(pad.capacity)[k - pad.base] == 0xcc;
        assert At(s'.mem, pad.base + (k - pad.base)) == Fill(pad.capacity)[k - pad.base];
      }
    }
  }

  // A block for the next free place of the pad.
  ghost predicate Next(pad: Pad, s: State, b: Block) {
    Room(pad, s.mem) && b.at == pad.base + s.used && b.code != [] && s.used + |b.code| + |JMP_STUB| <= pad.capacity
  }

  lemma InstallIsIntact(pad: Pad, s: State, b: Block)
    requires Next(pad, s, b)
    ensures Intact(Install(s, b).mem, b)
  {
    BlockIsWritten(s, b);
  }

  lemma InstallKeepsBlock(pad: Pad, s: State, blocks: seq<Block>, b: Block, i: nat)
    requires Laid(pad, s, blocks) && Next(pad, s, b) && i < |blocks|
    ensures Intact(Install(s, b).mem, blocks[i])
  {
    BlockEnds(pad, s, blocks, i);
    WriteKeepsIntact(s.mem, blocks[i], b.at, b.Bytes());
  }

  lemma InstallKeepsFill(pad: Pad, s: State, b: Block, k: nat)
    requires Next(pad, s, b) && At(s.mem, k) == 0xcc && k >= b.at + |b.code| + 14
    ensures At(Install(s, b).mem, k) == 0xcc
  {
  }

  lemma AppendedLies(pad: Pad, s: State, blocks: seq<Block>, b: Block, i: nat)
    requires Laid(pad, s, blocks) && Next(pad, s, b) && i <= |blocks|
    ensures var blocks' := blocks + [b];
            && blocks'[i].at == pad.base + Extent(blocks'[..i]) && blocks'[i].code != []
            && Intact(Install(s, b).mem, blocks'[i])
  {
    var blocks' := blocks + [b];
    assert blocks'[..i] == blocks[..i];
    if i < |blocks| {
      assert blocks'[i] == blocks[i];
      InstallKeepsBlock(pad, s, blocks, b, i);
    } else {
      assert blocks'[i] == b && blocks[..i] == blocks;
      InstallIsIntact(pad, s, b);
    }
  }

  lemma AppendKeepsLaid(pad: Pad, s: State, blocks: seq<Block>, b: Block)
    requires Laid(pad, s, blocks) && Next(pad, s, b) && s.once
    ensures Laid(pad, Install(s, b), blocks + [b])
  {
    var s', blocks' := Install(s, b), blocks + [b];
    assert blocks'[..|blocks|] == blocks;
    forall i | 0 <= i < |blocks'|
      ensures blocks'[i].at == pad.base + Extent(blocks'[..i]) && Intact(s'.mem, blocks'[i]) && blocks'[i].code != []
    {
      AppendedLies(pad, s, blocks, b, i);
    }
    forall k | pad.base + s'.used <= k < pad.base + pad.capacity ensures At(s'.mem, k) == 0xcc {
      InstallKeepsFill(pad, s, b, k);
    }
  }

  lemma InstallKeepsLaid(pad: Pad, s: State, blocks: seq<Block>, address: nat, min: int)
    requires Sound(pad.decoder) && Room(pad, s.mem) && Laid(pad, s, blocks) && s.once
    requires Plan(pad, s, address, min).Hooked?
    ensures var b := Plan(pad, s, address, min).block; Laid(pad, Install(s, b), blocks + [b])
  {
    AppendKeepsLaid(pad, s, blocks, Plan(pad, s, address, min).block);
  }

  // A hook keeps the layout, with the block that it makes behind the others.
  lemma HookKeepsLaid(pad: Pad, s: State, blocks: seq<Block>, address: nat, min: int)
    requires Sound(pad.decoder) && Room(pad, s.mem) && Laid(pad, s, blocks)
    ensures var (s', h) := CreateHook(pad, s, address, min);
            Laid(pad, s', if h.Hooked? then blocks + [h.block] else blocks)
  {
    var s1 := InitCave(pad, s);
    InitKeepsLaid(pad, s, blocks);
    if Plan(pad, s1, address, min).Hooked? {
      InstallKeepsLaid(pad, s1, blocks, address, min);
    }
  }

  // After any run from a fresh pad the blocks are laid out one after another, intact,
  // and the bytes in use are theirs.
  lemma {:induction false} CaveInvariant(pad: Pad, mem: seq<byte>, es: seq<Event>)
    requires Sound(pad.decoder) && Room(pad, mem) && AllAllowed(pad, |mem|, es)
    ensures var (s, blocks) := Run(pad, State(mem, 0, false), es); Laid(pad, s, blocks)
    decreases |es|
  {
    if es != [] {
      var before, e := es[..|es| - 1], es[|es| - 1];
      CaveInvariant(pad, mem, before);
      var (s, blocks) := Run(pad, State(mem, 0, false), before);
      match e {
        case Patch(at, data) => PatchKeepsLaid(pad, s, blocks, at, data);
        case Hook(address, min) => HookKeepsLaid(pad, s, blocks, address, min);
      }
    }
  }
}
