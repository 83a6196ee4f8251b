/** What the decoder with its own table says of some well-known instructions. */
module KnownCode {
  import opened Bytes
  import opened Table64
  import opened Hde64
  import opened DecoderLaws
  import opened FormLaws
  import opened RecordLaws
  import opened ErrorLaws
  import opened TableLaws

  lemma MovEntry()
    ensures HDE64[0x22] == 0xa5 && HDE64[0xa8] == 0x01
  {
  }

  // No prefix, no REX prefix: the opcode is the first byte.
  lemma PlainStart(m: seq<byte>, a: nat)
    requires At(m, a) !in PREFIXES && !IsRex(At(m, a))
    ensures PrefixRun(m, a) == 0 && OpcodeAt(m, a) == 0 && FirstOpcode(m, a) == At(m, a) && !Doubled(m, a)
  {
    assert Nth(m, a, 0) == At(m, a);
    PrefixesAre(At(m, a));
  }

  lemma NoneAmong(m: seq<byte>, a: nat)
    requires PrefixRun(m, a) == 0
    ensures forall c :: !Among(m, a, PrefixRun(m, a), c)
  {
  }

  // What the table says of opcode 8b.
  predicate HasMov(t: HdeTable) {
    t[0x22] == 0xa5 && t[0xa8] == 0x01
  }

  const NOTHING := Follows(false, false, false, false, false)

  lemma NothingFollowsModRm(op: byte, hs: Hde)
    requires op !in {0xf6, 0xf7}
    ensures WithGroup(FollowsOf(C_MODRM), op, hs) == NOTHING
  {
  }

  // The operand byte 45 has an 8-bit displacement and no SIB byte.
  lemma Form45(m: seq<byte>, a: nat, p: nat, short: bool, hs: Hde)
    requires Nth(m, a, p) == 0x45 && F_MODRM in hs.flags && OperandsShown(m, a, p, short, hs) && hs.opcode != 0x0f
    ensures FlaggedOperands(hs.flags) == 2 && hs.disp == Nth(m, a, p + 1)
    ensures hs.modrm_mod == 1 && hs.modrm_reg == 0 && hs.modrm_rm == 5
  {
  }

  lemma NothingMeansNoImm(wide: bool, short: bool, flags: set<Flag>)
    requires ImmShown(NOTHING, wide, short, flags)
    ensures FlaggedImm(flags) == 0
  {
  }

  // What the bytes say of the start of the instruction.
  lemma MovTakes(t: HdeTable, m: seq<byte>, a: nat)
    requires HasMov(t) && At(m, a) == 0x8b
    ensures Takes(t, m, a, C_MODRM, 0) && Behind(m, a) == 1 && LastOpcode(m, a) == 0x8b && !TwoByte(m, a)
    ensures PrefixRun(m, a) == 0 && PrefixBytes(m, a) == 0 && !HasRex(m, a) && !BadOpcode(t, m, a)
  {
    PlainStart(m, a);
  }

  ghost predicate MovShown(t: HdeTable, m: seq<byte>, a: nat, hs: Hde) {
    && hs.opcode == 0x8b && hs.opcode2 == 0 && F_PREFIX_REX !in hs.flags && F_MODRM in hs.flags
    && FlaggedOperands(hs.flags) == 2 && FlaggedImm(hs.flags) == 0 && hs.disp == At(m, a + 2)
    && hs.modrm_mod == 1 && hs.modrm_reg == 0 && hs.modrm_rm == 5
  }

  lemma MovFormOf(t: HdeTable, m: seq<byte>, a: nat, short: bool, wide: bool, short': bool, hs: Hde)
    requires HasMov(t) && At(m, a) == 0x8b && At(m, a + 1) == 0x45
    requires F_MODRM in hs.flags <==> Has(C_MODRM, C_MODRM)
    requires OperandsShown(m, a, 1, short, hs) && OpcodeShown(m, a, hs) && (F_PREFIX_REX in hs.flags <==> HasRex(m, a))
    requires ImmShown(WithGroup(FollowsOf(C_MODRM), 0x8b, hs), wide, short', hs.flags)
    ensures MovShown(t, m, a, hs)
  {
    MovTakes(t, m, a);
    PlainStart(m, a);
    assert Nth(m, a, 1) == 0x45;
    Form45(m, a, 1, short, hs);
    NothingFollowsModRm(0x8b, hs);
    NothingMeansNoImm(wide, short', hs.flags);
  }

  lemma MovForm(t: HdeTable, m: seq<byte>, a: nat, hs: Hde)
    requires HasMov(t) && At(m, a) == 0x8b && At(m, a + 1) == 0x45 && hs == Parse(t, m, a).hs
    ensures MovShown(t, m, a, hs)
  {
    MovTakes(t, m, a);
    RecordShows(t, m, a, C_MODRM, 0);
    OpcodeShows(t, m, a);
    MovFormOf(t, m, a, Among(m, a, PrefixRun(m, a), 0x67), Wide(m, a), Short(m, a), hs);
  }

  ghost predicate AnyBad(t: HdeTable, m: seq<byte>, a: nat, hs: Hde) {
    BadMember(t, hs, 0x8b, 0) || BadLock(t, m, a, hs, 0x8b) || BadOperand(t, m, a, hs, 0x8b)
  }

  lemma NoErrors(t: HdeTable, m: seq<byte>, a: nat, hs: Hde)
    requires MovShown(t, m, a, hs) && PrefixRun(m, a) == 0
    ensures !AnyBad(t, m, a, hs)
  {
    NoneAmong(m, a);
    assert !TopBit(0, 0);
  }

  lemma MovErrors(t: HdeTable, m: seq<byte>, a: nat, hs: Hde)
    requires HasMov(t) && At(m, a) == 0x8b && hs == Parse(t, m, a).hs
    ensures F_ERROR in hs.flags <==> AnyBad(t, m, a, hs)
  {
    MovTakes(t, m, a);
    ErrorsShow(t, m, a, C_MODRM, 0);
  }

  lemma MovIsClean(t: HdeTable, m: seq<byte>, a: nat, hs: Hde)
    requires HasMov(t) && At(m, a) == 0x8b && At(m, a + 1) == 0x45 && hs == Parse(t, m, a).hs
    ensures F_ERROR !in hs.flags
  {
    MovForm(t, m, a, hs);
    MovTakes(t, m, a);
    NoErrors(t, m, a, hs);
    MovErrors(t, m, a, hs);
  }

  // mov eax, [rbp + disp8] has three bytes.
  lemma MovDecodes(m: seq<byte>, a: nat)
    requires At(m, a) == 0x8b && At(m, a + 1) == 0x45
    ensures var hs := Decode(HDE64, m, a); hs.len == 3 && F_ERROR !in hs.flags && hs.disp == At(m, a + 2)
  {
    MovEntry();
    MovTakes(HDE64, m, a);
    MovForm(HDE64, m, a, Parse(HDE64, m, a).hs);
    MovIsClean(HDE64, m, a, Parse(HDE64, m, a).hs);
    Hde64Lengths(m, a);
    ClampLimits(Parse(HDE64, m, a));
  }
}
