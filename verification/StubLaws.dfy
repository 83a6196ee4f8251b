/** How the length decoder reads the jump that ends a block. */
module StubLaws {
  import opened Bytes
  import opened Table64
  import opened Hde64
  import opened Decoders

  // What the table says about opcode ff: a group whose members take a ModRM byte; the last is missing.
  predicate GroupFf(t: HdeTable) {
    t[0x3f] == 0xe6 && t[0xe9] == 0xc8 && t[0x48] == 0x01 && t[0x49] == 0x01
  }

  lemma TableHasGroupFf()
    ensures GroupFf(HDE64)
  {
  }

  const NONE_SEEN := Scan(0, CLEARED, NO_PREFIX)

  lemma FfIsNoPrefix(mem: seq<byte>, a: nat)
    requires At(mem, a) == 0xff
    ensures ScanPrefixes(mem, a, NONE_SEEN) == NONE_SEEN
  {
    assert Nth(mem, a, 0) == 0xff;
  }

  function FfOpcode(): Op {
    Op(1, CLEARED.(opcode := 0xff), NO_PREFIX.(none := true), false, 0xff, 0x01, 0x01)
  }

  lemma NoPrefixNoFlags()
    ensures NO_PREFIX.Flags() == {}
  {
    assert forall f: Flag :: !NO_PREFIX.Shows(f);
  }

  lemma FfIsAnOpcode(t: HdeTable, mem: seq<byte>, a: nat)
    requires GroupFf(t) && At(mem, a) == 0xff
    ensures ReadOpcode(t, mem, a, NONE_SEEN) == FfOpcode()
  {
    NoPrefixNoFlags();
    assert Nth(mem, a, 0) == 0xff;
    var r := ReadRex(mem, a, NONE_SEEN);
    assert r == Rex(1, 0xff, CLEARED, NO_PREFIX.(none := true), false, false);
    assert Entry(t, 0, 0xff) == 0xc8;
    assert Direct(t, 0, 0xff) == 0xc8;
    var o := Op(1, CLEARED.(opcode := 0xff), NO_PREFIX.(none := true), false, 0xff, 0, 0);
    assert AfterRex(t, mem, a, r) == Classify(t, 0, 0xff, o);
  }

  // jmp qword ptr [rip + disp32] is a form of six bytes with a ModRM byte and a displacement.
  lemma JumpForm(t: HdeTable, mem: seq<byte>, a: nat)
    requires GroupFf(t) && At(mem, a + 1) == 0x25
    ensures var r := Operands(t, mem, a, FfOpcode());
            && r.p == 6 && r.cflags == 0x01 && r.hs.modrm_mod == 0 && r.hs.modrm_rm == 5 && r.hs.modrm_reg == 4
            && r.hs.flags == {F_MODRM, F_DISP32} && r.hs.disp == Le(mem, a, 2, 4)
  {
    var o := FfOpcode();
    assert Nth(mem, a, 1) == 0x25;
    assert ModRmErrors(t, o, 0, 4, 5) == {};
    var f := AddModRm(t, o, 0x25);
    assert f.size == 4 && f.mod == 0 && f.o.p == 2 && !f.NeedsSib();
    assert Operands(t, mem, a, o) == ReadDisp(mem, a, f);
  }

  lemma NothingFollows(mem: seq<byte>, a: nat, o: Op)
    requires o.cflags == 0x01
    ensures ReadImmediates(mem, a, o) == o
  {
  }

  lemma StubDecodes(t: HdeTable, mem: seq<byte>, a: nat)
    requires GroupFf(t) && At(mem, a) == 0xff && At(mem, a + 1) == 0x25
    ensures var hs := HdeDecoder(t)(mem, a);
            && hs.len == 6 && hs.flags == {F_MODRM, F_DISP32}
            && hs.modrm_mod == 0 && hs.modrm_reg == 4 && hs.modrm_rm == 5
            && hs.disp == Le(mem, a, 2, 4)
  {
    FfIsNoPrefix(mem, a);
    FfIsAnOpcode(t, mem, a);
    JumpForm(t, mem, a);
    var r := Operands(t, mem, a, FfOpcode());
    NothingFollows(mem, a, r);
    assert Parse(t, mem, a) == r;
  }
}
