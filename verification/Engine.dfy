/** Hooks, two-hop branches and other patches in one run, as they are mixed when the engine is put to use. */
module Engine {
  import opened Bytes
  import opened Decoders
  import opened Branches
  import opened CodeCave
  import opened Islands
  import opened Trampoline
  import opened HookFrames
  import HookRuns

  // ---------------------------------------------------------------- runs

  // A prologue is hooked, a source is sent on through an island, an entry is overwritten with a long jump, or
  // memory is patched otherwise.
  datatype Action =
    | Prologue(address: nat, min: int)
    | Redirection(request: Request)
    | Detour(jump: Jump)
    | Poke(at: nat, data: seq<byte>)

  // A jump that is written at an address, with its target.
  datatype Jump = Jump(at: nat, dst: nat)

  // The pad and process memory, the blocks of the pad, the links through islands, and the long jumps.
  datatype Engine = Engine(cave: State, blocks: seq<Block>, links: seq<Link>, jumps: seq<Jump>)

  function Fresh(mem: seq<byte>): Engine {
    Engine(State(mem, 0, false), [], [], [])
  }

  predicate OffPadRange(pad: Pad, a: nat, n: nat) {
    Apart(pad.base, pad.capacity + 8, a, n)
  }

  ghost function NewLinks(mem: seq<byte>, r: Request): seq<Link> {
    var island := Island(mem, r.textbase, r.textsz);
    if island == 0 then [] else [Link(r, island)]
  }

  // Sources, texts and long jumps are apart from the pad, sources from islands and from one another, and long jumps
  // from sources and islands; other patches spare all of them. Nothing asks later islands to spare long jumps.
  ghost predicate Fits(pad: Pad, e: Engine, a: Action) {
    var mem := e.cave.mem;
    match a
    case Prologue(_, _) => true
    case Redirection(r) =>
      && Admissible(|mem|, r) && SourcesApart(e.links + NewLinks(mem, r))
      && OffPadRange(pad, r.src, r.len) && OffPadRange(pad, r.textbase, r.textsz + 16)
      && SparesJumps(e.jumps, r.src, r.len)
    case Detour(j) =>
      && j.at + 14 <= |mem| && SafeTarget(j.dst) && OffPadRange(pad, j.at, 14)
      && SparesLinks(e.links, j.at, 14) && SparesJumps(e.jumps, j.at, 14)
    case Poke(at, data) =>
      Allowed(pad, |mem|, Patch(at, data)) && SparesLinks(e.links, at, |data|) && SparesJumps(e.jumps, at, |data|)
  }

  predicate SparesLink(l: Link, a: nat, n: nat) {
    Apart(a, n, l.request.src, l.request.len) && Apart(a, n, l.island, 14)
  }

  predicate SparesLinks(links: seq<Link>, a: nat, n: nat) {
    forall i :: 0 <= i < |links| ==> SparesLink(links[i], a, n)
  }

  predicate SparesJumps(jumps: seq<Jump>, a: nat, n: nat) {
    forall i :: 0 <= i < |jumps| ==> Apart(a, n, jumps[i].at, 14)
  }

  ghost function Act(pad: Pad, e: Engine, a: Action): (e': Engine)
    requires Sound(pad.decoder) && Room(pad, e.cave.mem) && Fits(pad, e, a)
    ensures |e'.cave.mem| == |e.cave.mem| && Room(pad, e'.cave.mem)
  {
    match a
    case Prologue(address, min) =>
      var (s, h) := CreateHook(pad, e.cave, address, min);
      e.(cave := s, blocks := if h.Hooked? then e.blocks + [h.block] else e.blocks)
    case Redirection(r) =>
      e.(cave := e.cave.(mem := Redirect(e.cave.mem, r)), links := e.links + NewLinks(e.cave.mem, r))
    case Detour(j) => e.(cave := e.cave.(mem := WithJump64(e.cave.mem, j.at, j.dst)), jumps := e.jumps + [j])
    case Poke(at, data) => e.(cave := e.cave.(mem := Write(e.cave.mem, at, data)))
  }

  ghost predicate AllFit(pad: Pad, e: Engine, acts: seq<Action>)
    requires Sound(pad.decoder) && Room(pad, e.cave.mem)
    decreases |acts|
  {
    acts == [] || (Fits(pad, e, acts[0]) && AllFit(pad, Act(pad, e, acts[0]), acts[1..]))
  }

  ghost function RunEngine(pad: Pad, e: Engine, acts: seq<Action>): (e': Engine)
    requires Sound(pad.decoder) && Room(pad, e.cave.mem) && AllFit(pad, e, acts)
    ensures |e'.cave.mem| == |e.cave.mem|
    decreases |acts|
  {
    if acts == [] then e else RunEngine(pad, Act(pad, e, acts[0]), acts[1..])
  }

  // ---------------------------------------------------------------- the invariant

  // The pad is laid out, every link and every long jump stands, and they are off the pad.
  ghost predicate Invariant(pad: Pad, e: Engine) {
    && Room(pad, e.cave.mem)
    && Laid(pad, e.cave, e.blocks)
    && AllLinked(e.cave.mem, e.links) && SourcesApart(e.links)
    && (forall i :: 0 <= i < |e.links| ==> LinkOffPad(pad, e.links[i]))
    && JumpsStand(pad, e.cave.mem, e.jumps)
  }

  predicate LinkOffPad(pad: Pad, l: Link) {
    OffPadRange(pad, l.request.src, l.request.len) && OffPadRange(pad, l.island, 14)
  }

  ghost predicate JumpStands(pad: Pad, mem: seq<byte>, j: Jump) {
    Jump64At(mem, j.at, j.dst) && SafeTarget(j.dst) && OffPadRange(pad, j.at, 14)
  }

  ghost predicate JumpsStand(pad: Pad, mem: seq<byte>, jumps: seq<Jump>) {
    forall i :: 0 <= i < |jumps| ==> JumpStands(pad, mem, jumps[i])
  }

  // The bytes of the pad, as far as they are used or filled, decide how it is laid out.
  lemma PadKeepsLaid(pad: Pad, s: State, blocks: seq<Block>, mem': seq<byte>)
    requires Laid(pad, s, blocks) && |mem'| == |s.mem|
    requires forall k: nat :: !OffPad(pad, k) ==> At(mem', k) == At(s.mem, k)
    ensures Laid(pad, s.(mem := mem'), blocks)
  {
    forall i | 0 <= i < |blocks| ensures Intact(mem', blocks[i]) {
      BlockEnds(pad, s, blocks, i);
      SlicesStay(s.mem, mem', blocks[i].at, |blocks[i].Bytes()|);
    }
  }

  // Links stand as long as their bytes do.
  lemma LinksStay(mem: seq<byte>, mem': seq<byte>, links: seq<Link>)
    requires AllLinked(mem, links)
    requires forall i, k: nat :: 0 <= i < |links| && !SparesLink(links[i], k, 1) ==> At(mem', k) == At(mem, k)
    ensures AllLinked(mem', links)
  {
    forall i | 0 <= i < |links| ensures Linked(mem', links[i]) {
      var l := links[i];
      assert forall k: nat :: l.request.src <= k < l.request.src + l.request.len ==> !SparesLink(l, k, 1);
      assert forall k: nat :: l.island <= k < l.island + 14 ==> !SparesLink(l, k, 1);
      LinkStays(mem, mem', l);
    }
  }

  // Long jumps stand as long as their bytes do.
  lemma JumpsStay(pad: Pad, mem: seq<byte>, mem': seq<byte>, jumps: seq<Jump>)
    requires JumpsStand(pad, mem, jumps)
    requires forall i, k: nat :: 0 <= i < |jumps| && jumps[i].at <= k < jumps[i].at + 14 ==> At(mem', k) == At(mem, k)
    ensures JumpsStand(pad, mem', jumps)
  {
    forall i | 0 <= i < |jumps| ensures JumpStands(pad, mem', jumps[i]) {
      assert JumpStands(pad, mem, jumps[i]);
      SlicesStay(mem, mem', jumps[i].at, 6);
      SlicesStay(mem, mem', jumps[i].at + 6, 8);
    }
  }

  lemma PrologueKeepsJumps(pad: Pad, e: Engine, address: nat, min: int)
    requires Sound(pad.decoder) && Invariant(pad, e)
    ensures JumpsStand(pad, Act(pad, e, Prologue(address, min)).cave.mem, e.jumps)
  {
    var mem' := Act(pad, e, Prologue(address, min)).cave.mem;
    forall i, k: nat | 0 <= i < |e.jumps| && e.jumps[i].at <= k < e.jumps[i].at + 14
      ensures At(mem', k) == At(e.cave.mem, k)
    {
      assert JumpStands(pad, e.cave.mem, e.jumps[i]);
      HookFrame(pad, e.cave, address, min, k);
    }
    JumpsStay(pad, e.cave.mem, mem', e.jumps);
  }

  lemma PrologueKeepsLinks(pad: Pad, e: Engine, address: nat, min: int)
    requires Sound(pad.decoder) && Invariant(pad, e)
    ensures AllLinked(Act(pad, e, Prologue(address, min)).cave.mem, e.links)
  {
    var mem' := Act(pad, e, Prologue(address, min)).cave.mem;
    forall i, k: nat | 0 <= i < |e.links| && !SparesLink(e.links[i], k, 1) ensures At(mem', k) == At(e.cave.mem, k) {
      assert LinkOffPad(pad, e.links[i]);
      HookFrame(pad, e.cave, address, min, k);
    }
    LinksStay(e.cave.mem, mem', e.links);
  }

  // A redirection changes its source and its island alone, both off the pad.
  lemma RedirectFrame(pad: Pad, mem: seq<byte>, r: Request, k: nat)
    requires Admissible(|mem|, r) && OffPadRange(pad, r.src, r.len) && OffPadRange(pad, r.textbase, r.textsz + 16)
    requires forall l | l in NewLinks(mem, r) :: SparesLink(l, k, 1)
    ensures At(Redirect(mem, r), k) == At(mem, k)
  {
    var island := Island(mem, r.textbase, r.textsz);
    if island != 0 {
      IslandInText(mem, r.textbase, r.textsz);
      assert SparesLink(Link(r, island), k, 1);
      TwoHopsFrame(mem, r, island);
    }
  }

  lemma NewLinkOffPad(pad: Pad, mem: seq<byte>, r: Request)
    requires Admissible(|mem|, r) && OffPadRange(pad, r.src, r.len) && OffPadRange(pad, r.textbase, r.textsz + 16)
    ensures forall l | l in NewLinks(mem, r) :: LinkOffPad(pad, l)
  {
    if Island(mem, r.textbase, r.textsz) != 0 {
      IslandInText(mem, r.textbase, r.textsz);
    }
  }

  // A new island spares every long jump, whose target is safe.
  lemma RedirectionKeepsJumps(pad: Pad, e: Engine, r: Request)
    requires Sound(pad.decoder) && Invariant(pad, e) && Fits(pad, e, Redirection(r))
    ensures JumpsStand(pad, Redirect(e.cave.mem, r), e.jumps)
  {
    var mem := e.cave.mem;
    forall i, k: nat | 0 <= i < |e.jumps| && e.jumps[i].at <= k < e.jumps[i].at + 14
      ensures At(Redirect(mem, r), k) == At(mem, k)
    {
      assert JumpStands(pad, mem, e.jumps[i]) && Apart(r.src, r.len, e.jumps[i].at, 14);
      if Island(mem, r.textbase, r.textsz) != 0 {
        NewIslandIsApart(mem, r.textbase, r.textsz, e.jumps[i].at, e.jumps[i].dst);
      }
      RedirectFrame(pad, mem, r, k);
    }
    JumpsStay(pad, mem, Redirect(mem, r), e.jumps);
  }

  lemma RedirectionKeepsInvariant(pad: Pad, e: Engine, r: Request)
    requires Sound(pad.decoder) && Invariant(pad, e) && Fits(pad, e, Redirection(r))
    ensures Invariant(pad, Act(pad, e, Redirection(r)))
  {
    var mem := e.cave.mem;
    NewLinkOffPad(pad, mem, r);
    forall k: nat | !OffPad(pad, k) ensures At(Redirect(mem, r), k) == At(mem, k) {
      RedirectFrame(pad, mem, r, k);
    }
    PadKeepsLaid(pad, e.cave, e.blocks, Redirect(mem, r));
    RedirectionKeepsJumps(pad, e, r);
    if Island(mem, r.textbase, r.textsz) == 0 {
      assert e.links + NewLinks(mem, r) == e.links;
    } else {
      RedirectKeepsLinked(mem, e.links, r);
    }
  }

  // A write that spares them leaves links and long jumps standing.
  lemma BranchesStay(pad: Pad, e: Engine, mem': seq<byte>, at: nat, n: nat)
    requires Invariant(pad, e) && SparesLinks(e.links, at, n) && SparesJumps(e.jumps, at, n)
    requires forall k: nat :: k < at || at + n <= k ==> At(mem', k) == At(e.cave.mem, k)
    ensures AllLinked(mem', e.links) && JumpsStand(pad, mem', e.jumps)
  {
    LinksStay(e.cave.mem, mem', e.links);
    JumpsStay(pad, e.cave.mem, mem', e.jumps);
  }

  lemma DetourKeepsInvariant(pad: Pad, e: Engine, j: Jump)
    requires Sound(pad.decoder) && Invariant(pad, e) && Fits(pad, e, Detour(j))
    ensures Invariant(pad, Act(pad, e, Detour(j)))
  {
    var mem' := WithJump64(e.cave.mem, j.at, j.dst);
    WithJump64IsJump(e.cave.mem, j.at, j.dst);
    PadKeepsLaid(pad, e.cave, e.blocks, mem');
    BranchesStay(pad, e, mem', j.at, 14);
    assert JumpStands(pad, mem', j);
  }

  lemma PokeKeepsInvariant(pad: Pad, e: Engine, at: nat, data: seq<byte>)
    requires Sound(pad.decoder) && Invariant(pad, e) && Fits(pad, e, Poke(at, data))
    ensures Invariant(pad, Act(pad, e, Poke(at, data)))
  {
    PatchKeepsLaid(pad, e.cave, e.blocks, at, data);
    BranchesStay(pad, e, Write(e.cave.mem, at, data), at, |data|);
  }

  lemma ActKeepsInvariant(pad: Pad, e: Engine, a: Action)
    requires Sound(pad.decoder) && Invariant(pad, e) && Fits(pad, e, a)
    ensures Invariant(pad, Act(pad, e, a))
  {
    match a
    case Prologue(address, min) =>
      HookKeepsLaid(pad, e.cave, e.blocks, address, min);
      PrologueKeepsLinks(pad, e, address, min);
      PrologueKeepsJumps(pad, e, address, min);
    case Redirection(r) => RedirectionKeepsInvariant(pad, e, r);
    case Detour(j) => DetourKeepsInvariant(pad, e, j);
    case Poke(at, data) => PokeKeepsInvariant(pad, e, at, data);
  }

  // Over every run: blocks are laid out and intact, every link and every long jump stands, islands are disjoint,
  // and all of them are off the pad.
  lemma {:induction false} EngineKeepsInvariant(pad: Pad, e: Engine, acts: seq<Action>)
    requires Sound(pad.decoder) && Invariant(pad, e) && AllFit(pad, e, acts)
    ensures Invariant(pad, RunEngine(pad, e, acts))
    decreases |acts|
  {
    if acts != [] {
      ActKeepsInvariant(pad, e, acts[0]);
      EngineKeepsInvariant(pad, Act(pad, e, acts[0]), acts[1..]);
    }
  }

  lemma FreshKeepsInvariant(pad: Pad, mem: seq<byte>, acts: seq<Action>)
    requires Sound(pad.decoder) && Room(pad, mem) && AllFit(pad, Fresh(mem), acts)
    ensures Invariant(pad, RunEngine(pad, Fresh(mem), acts))
  {
    EngineKeepsInvariant(pad, Fresh(mem), acts);
  }

  // ---------------------------------------------------------------- what a run leaves alone

  lemma {:induction false} EngineGrows(pad: Pad, e: Engine, acts: seq<Action>)
    requires Sound(pad.decoder) && Room(pad, e.cave.mem) && AllFit(pad, e, acts)
    ensures e.blocks <= RunEngine(pad, e, acts).blocks && e.links <= RunEngine(pad, e, acts).links
    ensures e.jumps <= RunEngine(pad, e, acts).jumps
    decreases |acts|
  {
    if acts != [] {
      EngineGrows(pad, Act(pad, e, acts[0]), acts[1..]);
    }
  }

  predicate OffWrite(a: Action, k: nat) {
    match a
    case Poke(at, data) => k < at || at + |data| <= k
    case Detour(j) => k < j.at || j.at + 14 <= k
    case _ => true
  }

  // The bytes off the pad, off every poke and long jump, and off every link that the run makes.
  ghost function LeftAlone(pad: Pad, e: Engine, acts: seq<Action>): iset<nat>
    requires Sound(pad.decoder) && Room(pad, e.cave.mem) && AllFit(pad, e, acts)
  {
    var links := RunEngine(pad, e, acts).links;
    iset k: nat | OffPad(pad, k) && (forall i :: 0 <= i < |acts| ==> OffWrite(acts[i], k)) &&
                  forall i :: |e.links| <= i < |links| ==> SparesLink(links[i], k, 1)
  }

  lemma RedirectionFrame(pad: Pad, e: Engine, r: Request, k: nat)
    requires Sound(pad.decoder) && Room(pad, e.cave.mem) && Fits(pad, e, Redirection(r))
    requires var links := e.links + NewLinks(e.cave.mem, r);
             forall i :: |e.links| <= i < |links| ==> SparesLink(links[i], k, 1)
    ensures At(Redirect(e.cave.mem, r), k) == At(e.cave.mem, k)
  {
    var made := NewLinks(e.cave.mem, r);
    assert made != [] ==> made[0] == (e.links + made)[|e.links|];
    RedirectFrame(pad, e.cave.mem, r, k);
  }

  lemma ActFrame(pad: Pad, e: Engine, a: Action, k: nat)
    requires Sound(pad.decoder) && Room(pad, e.cave.mem) && Fits(pad, e, a) && OffPad(pad, k) && OffWrite(a, k)
    requires var links := Act(pad, e, a).links; forall i :: |e.links| <= i < |links| ==> SparesLink(links[i], k, 1)
    ensures At(Act(pad, e, a).cave.mem, k) == At(e.cave.mem, k)
  {
    match a
    case Prologue(address, min) => HookFrame(pad, e.cave, address, min, k);
    case Redirection(r) => RedirectionFrame(pad, e, r, k);
    case Detour(j) => WithJump64IsJump(e.cave.mem, j.at, j.dst);
    case Poke(at, data) =>
  }

  lemma {:induction false} EngineFrame(pad: Pad, e: Engine, acts: seq<Action>, k: nat)
    requires Sound(pad.decoder) && Room(pad, e.cave.mem) && AllFit(pad, e, acts) && k in LeftAlone(pad, e, acts)
    ensures At(RunEngine(pad, e, acts).cave.mem, k) == At(e.cave.mem, k)
    decreases |acts|
  {
    if acts != [] {
      var next := Act(pad, e, acts[0]);
      var links := RunEngine(pad, e, acts).links;
      EngineGrows(pad, next, acts[1..]);
      assert OffWrite(acts[0], k);
      assert forall i :: 0 <= i < |next.links| ==> next.links[i] == links[i];
      ActFrame(pad, e, acts[0], k);
      assert forall i :: 0 <= i < |acts| - 1 ==> acts[1..][i] == acts[i + 1];
      EngineFrame(pad, next, acts[1..], k);
    }
  }

  // ---------------------------------------------------------------- hooked functions

  // A hook made now, at the end of any run that goes on from here: calling the address it returned runs the function as
  // it was, for as long as that stays in code the run leaves alone.
  lemma FunctionSurvives<M(!new)>(
      pad: Pad, e: Engine, acts: seq<Action>, eff: Effect<M>, m: M, n: nat, s: State, k: nat, r: nat)
    requires Sound(pad.decoder) && Invariant(pad, e) && AllFit(pad, e, acts) && |e.cave.mem| < TWO64
    requires acts != [] && acts[0].Prologue? && s == InitCave(pad, e.cave)
    requires r == Returned(pad, e.cave, acts[0].address, acts[0].min) && r != 0
    requires ReachesAt(pad.decoder, s.mem, acts[0].address, acts[0].min, k) && acts[0].address + acts[0].min + 15 < TWO64
    requires Copyable(pad.decoder, s.mem, eff, acts[0].address, k)
    requires StaysKept(pad.decoder, s.mem, eff, n, Behind(pad.decoder, s.mem, eff, acts[0].address, k, m),
                       LeftAlone(pad, e, acts))
    ensures RunsOn(pad.decoder, s.mem, RunEngine(pad, e, acts).cave.mem, eff, acts[0].address, r, k, m, n)
  {
    var after := RunEngine(pad, e, acts).cave.mem;
    var kept := LeftAlone(pad, e, acts);
    var b := HookRuns.ReturnsBlock(pad, e.cave, acts[0].address, acts[0].min, k, r);
    HookRuns.HookCopies(pad, s, acts[0].address, acts[0].min, eff);
    BlockStands(pad, e, acts, s, b);
    forall j: nat | j in kept ensures At(after, j) == At(s.mem, j) {
      EngineFrame(pad, e, acts, j);
      InitFrame(pad, e.cave, j);
    }
    KeptRunIsShared(pad.decoder, s.mem, after, eff, n, Behind(pad.decoder, s.mem, eff, acts[0].address, k, m), kept);
    WholeRunIsPreserved(pad.decoder, s.mem, after, eff, b, k, m, n);
  }

  lemma BlockStands(pad: Pad, e: Engine, acts: seq<Action>, s: State, b: Block)
    requires Sound(pad.decoder) && Invariant(pad, e) && AllFit(pad, e, acts) && |e.cave.mem| < TWO64
    requires acts != [] && acts[0].Prologue? && s == InitCave(pad, e.cave)
    requires Plan(pad, s, acts[0].address, acts[0].min) == Hooked(b)
    ensures Intact(RunEngine(pad, e, acts).cave.mem, b) && b.at + |b.code| + 6 < TWO64
  {
    var next, end := Act(pad, e, acts[0]), RunEngine(pad, e, acts);
    assert next.blocks == e.blocks + [b];
    EngineGrows(pad, next, acts[1..]);
    EngineKeepsInvariant(pad, e, acts);
    assert end.blocks[|e.blocks|] == b;
  }

  // Hooking a function as the engine is used: its prologue is hooked, then its entry is sent to a replacement
  // through an island. At the end of any run that goes on, the entry branches to the island, the island jumps to
  // the replacement, and calling the hook runs the function as it was.
  lemma ReplacementAndOriginal<M(!new)>(
      pad: Pad, e: Engine, acts: seq<Action>, eff: Effect<M>, m: M, n: nat, s: State, k: nat, r: nat,
      l: Link)
    requires Sound(pad.decoder) && Invariant(pad, e) && AllFit(pad, e, acts) && |e.cave.mem| < TWO64
    requires |acts| >= 2 && acts[0].Prologue? && acts[1] == Redirection(l.request) && l.request.src == acts[0].address
    requires s == InitCave(pad, e.cave) && r == Returned(pad, e.cave, acts[0].address, acts[0].min) && r != 0
    requires NewLinks(Act(pad, e, acts[0]).cave.mem, l.request) == [l]
    requires ReachesAt(pad.decoder, s.mem, acts[0].address, acts[0].min, k) && acts[0].address + acts[0].min + 15 < TWO64
    requires Copyable(pad.decoder, s.mem, eff, acts[0].address, k)
    requires StaysKept(pad.decoder, s.mem, eff, n, Behind(pad.decoder, s.mem, eff, acts[0].address, k, m),
                       LeftAlone(pad, e, acts))
    ensures var mem, entry := RunEngine(pad, e, acts).cave.mem, acts[0].address;
            && (ReadLEA32(mem, entry, 0, 1, JMP_CALL_BYTES) == l.island <==> InReach(entry, l.island))
            && IsJumpThroughMemory(mem, l.island) && JumpTarget(mem, l.island) == l.request.dst
            && RunsOn(pad.decoder, s.mem, mem, eff, entry, r, k, m, n)
  {
    FunctionSurvives(pad, e, acts, eff, m, n, s, k, r);
    LinkStands(pad, e, acts, l);
    LinkGoesToTarget(RunEngine(pad, e, acts).cave.mem, l);
  }

  // The same for an entry that is overwritten with a long jump to its replacement.
  lemma DetourAndOriginal<M(!new)>(
      pad: Pad, e: Engine, acts: seq<Action>, eff: Effect<M>, m: M, n: nat, s: State, k: nat, r: nat,
      j: Jump)
    requires Sound(pad.decoder) && Invariant(pad, e) && AllFit(pad, e, acts) && |e.cave.mem| < TWO64
    requires |acts| >= 2 && acts[0].Prologue? && acts[1] == Detour(j) && j.at == acts[0].address
    requires s == InitCave(pad, e.cave) && r == Returned(pad, e.cave, acts[0].address, acts[0].min) && r != 0
    requires ReachesAt(pad.decoder, s.mem, acts[0].address, acts[0].min, k) && acts[0].address + acts[0].min + 15 < TWO64
    requires Copyable(pad.decoder, s.mem, eff, acts[0].address, k)
    requires StaysKept(pad.decoder, s.mem, eff, n, Behind(pad.decoder, s.mem, eff, acts[0].address, k, m),
                       LeftAlone(pad, e, acts))
    ensures var mem, entry := RunEngine(pad, e, acts).cave.mem, acts[0].address;
            && IsJumpThroughMemory(mem, entry) && JumpTarget(mem, entry) == j.dst
            && RunsOn(pad.decoder, s.mem, mem, eff, entry, r, k, m, n)
  {
    FunctionSurvives(pad, e, acts, eff, m, n, s, k, r);
    JumpStandsAtEnd(pad, e, acts, j);
    Jump64Goes(RunEngine(pad, e, acts).cave.mem, j.at, j.dst);
  }

  lemma JumpStandsAtEnd(pad: Pad, e: Engine, acts: seq<Action>, j: Jump)
    requires Sound(pad.decoder) && Invariant(pad, e) && AllFit(pad, e, acts) && |e.cave.mem| < TWO64
    requires |acts| >= 2 && acts[0].Prologue? && acts[1] == Detour(j)
    ensures Jump64At(RunEngine(pad, e, acts).cave.mem, j.at, j.dst) && j.dst < TWO64 && j.at + 6 < TWO64
  {
    ActKeepsInvariant(pad, e, acts[0]);
    assert acts[1..][0] == acts[1];
    NewJumpStands(pad, Act(pad, e, acts[0]), acts[1..], j);
  }

  // A long jump made now stands at the end of any run that goes on from here.
  lemma NewJumpStands(pad: Pad, e: Engine, acts: seq<Action>, j: Jump)
    requires Sound(pad.decoder) && Invariant(pad, e) && AllFit(pad, e, acts) && |e.cave.mem| < TWO64
    requires acts != [] && acts[0] == Detour(j)
    ensures Jump64At(RunEngine(pad, e, acts).cave.mem, j.at, j.dst) && j.dst < TWO64 && j.at + 6 < TWO64
  {
    var next, end := Act(pad, e, acts[0]), RunEngine(pad, e, acts);
    assert next.jumps == e.jumps + [j];
    EngineGrows(pad, next, acts[1..]);
    EngineKeepsInvariant(pad, e, acts);
    assert end.jumps[|e.jumps|] == j;
    assert JumpStands(pad, end.cave.mem, j);
  }

  lemma LinkStands(pad: Pad, e: Engine, acts: seq<Action>, l: Link)
    requires Sound(pad.decoder) && Invariant(pad, e) && AllFit(pad, e, acts) && |e.cave.mem| < TWO64
    requires |acts| >= 2 && acts[0].Prologue? && acts[1] == Redirection(l.request)
    requires NewLinks(Act(pad, e, acts[0]).cave.mem, l.request) == [l]
    ensures Linked(RunEngine(pad, e, acts).cave.mem, l) && l.island + 6 < TWO64
    ensures 0 < l.request.src && l.request.dst < TWO64
  {
    ActKeepsInvariant(pad, e, acts[0]);
    assert acts[1..][0] == acts[1];
    NewLinkStands(pad, Act(pad, e, acts[0]), acts[1..], l);
  }

  // A link made now stands at the end of any run that goes on from here.
  lemma NewLinkStands(pad: Pad, e: Engine, acts: seq<Action>, l: Link)
    requires Sound(pad.decoder) && Invariant(pad, e) && AllFit(pad, e, acts) && |e.cave.mem| < TWO64
    requires acts != [] && acts[0] == Redirection(l.request) && NewLinks(e.cave.mem, l.request) == [l]
    ensures Linked(RunEngine(pad, e, acts).cave.mem, l) && l.island + 6 < TWO64
    ensures 0 < l.request.src && l.request.dst < TWO64
  {
    var next, end := Act(pad, e, acts[0]), RunEngine(pad, e, acts);
    assert next.links == e.links + [l];
    EngineGrows(pad, next, acts[1..]);
    EngineKeepsInvariant(pad, e, acts);
    assert end.links[|e.links|] == l;
    IslandInText(e.cave.mem, l.request.textbase, l.request.textsz);
  }
}
