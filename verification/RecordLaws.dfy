/** What the decoder reports of an instruction, field by field, from its bytes and the table. */
module RecordLaws {
  import opened Bytes
  import opened Table64
  import opened Hde64
  import opened DecoderLaws
  import opened FormLaws

  const PREFIX_FLAGS: set<Flag> :=
    {F_PREFIX_REPNZ, F_PREFIX_REPX, F_PREFIX_66, F_PREFIX_67, F_PREFIX_LOCK, F_PREFIX_SEG, F_PREFIX_REX}

  lemma FlagsArePrefixes(pref: Prefix)
    ensures pref.Flags() <= PREFIX_FLAGS
  {
  }

  lemma EarlyFlags(flags: set<Flag>)
    requires flags <= PREFIX_FLAGS + BAD_OPCODE
    ensures NoOperands(flags) && NoImm(flags) && F_RELATIVE !in flags
    ensures F_ERROR_LOCK !in flags && F_ERROR_OPERAND !in flags
  {
  }

  // The record before its operands are read.
  lemma RecordStartsEmpty(t: HdeTable, m: seq<byte>, a: nat, s: Scan, hs: Hde)
    requires s == ScanPrefixes(m, a, Scan(0, CLEARED, NO_PREFIX)) && hs == OpcodeRecord(t, m, a, s)
    ensures NoOperandFields(hs) && hs.flags <= PREFIX_FLAGS + BAD_OPCODE
  {
    ScanKeeps(m, a, Scan(0, CLEARED, NO_PREFIX));
    FlagsArePrefixes(s.pref);
    EarlyFlags(hs.flags);
  }

  // The flags that operands add are no immediates.
  lemma NoImmYet(before: set<Flag>, now: set<Flag>)
    requires NoImm(before) && F_RELATIVE !in before && forall f :: f in now - before ==> f in OF_OPERANDS
    ensures NoImm(now) && F_RELATIVE !in now
  {
    forall f | f in {F_IMM8, F_IMM16, F_IMM32, F_IMM64, F_ERROR_LENGTH, F_RELATIVE} ensures f !in now {
      assert f in now - before ==> f in OF_OPERANDS;
    }
  }

  lemma NoImmAfterOperands(t: HdeTable, m: seq<byte>, a: nat, o: Op, o1: Op)
    requires NoOperandFields(o.hs) && o1 == Operands(t, m, a, o)
    ensures NoImm(o1.hs.flags) && F_RELATIVE !in o1.hs.flags && o1.hs.imm == 0
  {
    OperandsKeep(t, m, a, o, o1);
    NoImmYet(o.hs.flags, o1.hs.flags);
  }

  // What an opcode takes is one byte.
  lemma TakesOne(t: HdeTable, m: seq<byte>, a: nat, takes: byte, lacks: byte, takes': byte, lacks': byte)
    requires Takes(t, m, a, takes, lacks) && Takes(t, m, a, takes', lacks')
    ensures takes == takes' && lacks == lacks'
  {
  }

  // What is known of an instruction once its opcode is read.
  ghost predicate Opened(t: HdeTable, m: seq<byte>, a: nat, o: Op) {
    && OpcodeKnown(t, m, a, o) && NoOperandFields(o.hs) && OpcodeOf(o)
    && o.hs.flags <= PREFIX_FLAGS + BAD_OPCODE
  }

  lemma OpensSo(t: HdeTable, m: seq<byte>, a: nat, s: Scan, o: Op)
    requires s == ScanPrefixes(m, a, Scan(0, CLEARED, NO_PREFIX)) && o == ReadOpcode(t, m, a, s)
    ensures Opened(t, m, a, o) && o.hs == OpcodeRecord(t, m, a, s)
  {
    OpcodeIsKnown(t, m, a, s, o);
    RecordStartsEmpty(t, m, a, s, o.hs);
  }

  // The instruction once its opcode, and once its operands are read.
  lemma Stages(t: HdeTable, m: seq<byte>, a: nat) returns (s: Scan, o: Op, o1: Op)
    ensures s == ScanPrefixes(m, a, Scan(0, CLEARED, NO_PREFIX)) && o.hs == OpcodeRecord(t, m, a, s)
    ensures Opened(t, m, a, o) && o1 == Operands(t, m, a, o) && Parse(t, m, a) == ReadImmediates(m, a, o1)
  {
    s := ScanPrefixes(m, a, Scan(0, CLEARED, NO_PREFIX));
    o := ReadOpcode(t, m, a, s);
    o1 := Operands(t, m, a, o);
    OpensSo(t, m, a, s, o);
  }

  lemma SameOperands(m: seq<byte>, a: nat, p: nat, short: bool, hs: Hde, hs': Hde)
    requires OperandsShown(m, a, p, short, hs) && hs'.(flags := {}, imm := 0) == hs.(flags := {}, imm := 0)
    requires hs'.flags >= hs.flags
    requires forall f :: f in hs'.flags - hs.flags ==> f in {F_IMM8, F_IMM16, F_IMM32, F_IMM64, F_RELATIVE}
    ensures OperandsShown(m, a, p, short, hs')
    ensures F_MODRM in hs'.flags <==> F_MODRM in hs.flags
  {
    forall f | f in {F_MODRM, F_SIB, F_DISP8, F_DISP16, F_DISP32} ensures f in hs'.flags <==> f in hs.flags {
      assert f in hs'.flags - hs.flags ==> f in {F_IMM8, F_IMM16, F_IMM32, F_IMM64, F_RELATIVE};
    }
  }

  lemma OperandsInRecord(t: HdeTable, m: seq<byte>, a: nat, o: Op, o1: Op, r: Op)
    requires Opened(t, m, a, o) && o1 == Operands(t, m, a, o) && r == ReadImmediates(m, a, o1)
    ensures OperandsShown(m, a, o.p, o.pref.p67, r.hs) && (F_MODRM in r.hs.flags <==> Has(o.cflags, C_MODRM))
  {
    OperandsShow(t, m, a, o, o1);
    OperandsKeep(t, m, a, o, o1);
    NoImmYet(o.hs.flags, o1.hs.flags);
    ImmediatesShow(m, a, o1, r);
    SameOperands(m, a, o.p, o.pref.p67, o1.hs, r.hs);
  }

  lemma ImmediatesInRecord(t: HdeTable, m: seq<byte>, a: nat, o: Op, o1: Op, r: Op)
    requires Opened(t, m, a, o) && o1 == Operands(t, m, a, o) && r == ReadImmediates(m, a, o1)
    ensures ImmShown(WithGroup(FollowsOf(o.cflags), o.opcode, r.hs), o.op64, o.pref.p66, r.hs.flags)
  {
    OperandsFollow(t, m, a, o, o1);
    OperandsKeep(t, m, a, o, o1);
    NoImmYet(o.hs.flags, o1.hs.flags);
    ImmediatesShow(m, a, o1, r);
    SameModRm(o1.hs, r.hs);
  }

  lemma SameModRm(hs: Hde, hs': Hde)
    requires hs'.(flags := {}, imm := 0) == hs.(flags := {}, imm := 0) && hs'.flags >= hs.flags
    requires forall f :: f in hs'.flags - hs.flags ==> f in {F_IMM8, F_IMM16, F_IMM32, F_IMM64, F_RELATIVE}
    ensures hs'.modrm_reg == hs.modrm_reg && (F_MODRM in hs'.flags <==> F_MODRM in hs.flags)
  {
    assert F_MODRM in hs'.flags - hs.flags ==> F_MODRM in {F_IMM8, F_IMM16, F_IMM32, F_IMM64, F_RELATIVE};
  }

  // A doubled REX prefix takes nothing, so its width does not matter.
  lemma NothingTaken(w: Follows, flags: set<Flag>, wide: bool, wide': bool, short: bool)
    requires ImmShown(w, wide, short, flags) && (wide == wide' || !w.immP66)
    ensures ImmShown(w, wide', short, flags)
  {
  }

  // The operand byte is there if the opcode takes one, SIB byte and displacement if that byte asks for them, and the
  // immediates are those that the opcode's entry names, with the sizes that prefixes and REX.W choose.
  lemma RecordShows(t: HdeTable, m: seq<byte>, a: nat, takes: byte, lacks: byte)
    requires Takes(t, m, a, takes, lacks)
    ensures var hs, short := Parse(t, m, a).hs, Among(m, a, PrefixRun(m, a), 0x67);
            && (F_MODRM in hs.flags <==> Has(takes, C_MODRM))
            && ModRmShown(m, a, Behind(m, a), hs)
            && SibShown(m, a, Behind(m, a), hs)
            && DispShown(m, a, Behind(m, a), short, hs)
            && ImmShown(WithGroup(FollowsOf(takes), LastOpcode(m, a), hs), Wide(m, a), Short(m, a), hs.flags)
  {
    var _, o, o1 := Stages(t, m, a);
    var r := Parse(t, m, a);
    TakesOne(t, m, a, takes, lacks, o.cflags, o.mask);
    OperandsInRecord(t, m, a, o, o1, r);
    ImmediatesInRecord(t, m, a, o, o1, r);
    if Doubled(m, a) {
      NothingTaken(WithGroup(FollowsOf(takes), LastOpcode(m, a), r.hs), r.hs.flags, o.op64, Wide(m, a), Short(m, a));
    }
  }

  // ---------------------------------------------------------------- immediates

  lemma SameFlagged(before: set<Flag>, now: set<Flag>)
    requires now >= before
    requires forall f :: f in now - before ==> f in {F_IMM8, F_IMM16, F_IMM32, F_IMM64, F_RELATIVE}
    ensures FlaggedOperands(now) == FlaggedOperands(before)
  {
    forall f | f in {F_MODRM, F_SIB, F_DISP8, F_DISP16, F_DISP32} ensures f in now <==> f in before {
      assert f in now - before ==> f in {F_IMM8, F_IMM16, F_IMM32, F_IMM64, F_RELATIVE};
    }
  }

  lemma ImmediateInRecord(t: HdeTable, m: seq<byte>, a: nat, o: Op, o1: Op, r: Op)
    requires NoOperandFields(o.hs) && o1 == Operands(t, m, a, o) && r == ReadImmediates(m, a, o1)
    requires ShortBranchAlone(o.cflags)
    ensures ImmValue(m, a, o1.p, r.hs.flags, r.hs.imm) && FlaggedOperands(r.hs.flags) == FlaggedOperands(o1.hs.flags)
  {
    NoImmAfterOperands(t, m, a, o, o1);
    OperandsKeepImmediatesApart(t, m, a, o);
    ImmediatesRead(m, a, o1, r);
    ImmediatesShow(m, a, o1, r);
    SameFlagged(o1.hs.flags, r.hs.flags);
  }

  // The immediates stand behind the operands, which stand at p.
  predicate ImmReadAt(m: seq<byte>, a: nat, p: nat, hs: Hde) {
    ImmValue(m, a, p + FlaggedOperands(hs.flags), hs.flags, hs.imm)
  }

  lemma ImmediateReadAt(t: HdeTable, m: seq<byte>, a: nat, o: Op, o1: Op, r: Op)
    requires NoOperandFields(o.hs) && o1 == Operands(t, m, a, o) && r == ReadImmediates(m, a, o1)
    requires ShortBranchAlone(o.cflags)
    ensures ImmReadAt(m, a, o.p, r.hs)
  {
    OperandsAccounting(t, m, a, o);
    ImmediateInRecord(t, m, a, o, o1, r);
    SameImmediate(m, a, o1.p, o.p, r.hs);
  }

  lemma SameImmediate(m: seq<byte>, a: nat, e: nat, p: nat, hs: Hde)
    requires ImmValue(m, a, e, hs.flags, hs.imm) && e == p + FlaggedOperands(hs.flags)
    ensures ImmReadAt(m, a, p, hs)
  {
  }

  // The immediates are read from behind the operands.
  lemma ImmediateShows(t: HdeTable, m: seq<byte>, a: nat, takes: byte, lacks: byte)
    requires Takes(t, m, a, takes, lacks) && ShortBranchAlone(takes)
    ensures ImmReadAt(m, a, Behind(m, a), Parse(t, m, a).hs)
  {
    var _, o, o1 := Stages(t, m, a);
    TakesOne(t, m, a, takes, lacks, o.cflags, o.mask);
    ImmediateReadAt(t, m, a, o, o1, Parse(t, m, a));
  }

  // ---------------------------------------------------------------- prefixes and opcode

  ghost predicate SameHead(hs: Hde, hs': Hde) {
    Head(hs') == Head(hs) && forall f :: f in PREFIX_FLAGS ==> (f in hs'.flags <==> f in hs.flags)
  }

  lemma PrefixFlagsStay(before: set<Flag>, now: set<Flag>)
    requires now >= before && forall f :: f in now - before ==> f in OF_OPERANDS
    ensures forall f :: f in PREFIX_FLAGS ==> (f in now <==> f in before)
  {
    forall f | f in PREFIX_FLAGS ensures f in now <==> f in before {
      assert f in now - before ==> f in OF_OPERANDS;
    }
  }

  lemma OperandsKeepHead(t: HdeTable, m: seq<byte>, a: nat, o: Op, o1: Op)
    requires NoOperandFields(o.hs) && o1 == Operands(t, m, a, o)
    ensures SameHead(o.hs, o1.hs)
  {
    OperandsKeep(t, m, a, o, o1);
    PrefixFlagsStay(o.hs.flags, o1.hs.flags);
  }

  lemma ImmediatesKeepHead(m: seq<byte>, a: nat, o: Op, r: Op)
    requires NoImm(o.hs.flags) && F_RELATIVE !in o.hs.flags && r == ReadImmediates(m, a, o)
    ensures SameHead(o.hs, r.hs)
  {
    ImmediatesShow(m, a, o, r);
    forall f | f in PREFIX_FLAGS ensures f in r.hs.flags <==> f in o.hs.flags {
      assert f in r.hs.flags - o.hs.flags ==> f in {F_IMM8, F_IMM16, F_IMM32, F_IMM64, F_RELATIVE};
    }
  }

  lemma HeadStays(t: HdeTable, m: seq<byte>, a: nat, o: Op, o1: Op, r: Op)
    requires NoOperandFields(o.hs) && o1 == Operands(t, m, a, o) && r == ReadImmediates(m, a, o1)
    ensures SameHead(o.hs, r.hs)
  {
    NoImmAfterOperands(t, m, a, o, o1);
    OperandsKeepHead(t, m, a, o, o1);
    ImmediatesKeepHead(m, a, o1, r);
  }

  // Each prefix flag shows its byte among the prefixes.
  ghost predicate PrefixFlagsShow(m: seq<byte>, a: nat, n: nat, flags: set<Flag>) {
    && (F_PREFIX_REPNZ in flags <==> Among(m, a, n, 0xf2)) && (F_PREFIX_REPX in flags <==> Among(m, a, n, 0xf3))
    && (F_PREFIX_66 in flags <==> Among(m, a, n, 0x66)) && (F_PREFIX_67 in flags <==> Among(m, a, n, 0x67))
    && (F_PREFIX_LOCK in flags <==> Among(m, a, n, 0xf0)) && (F_PREFIX_SEG in flags <==> SegmentAmong(m, a, n))
  }

  lemma PrefixFlagsAre(m: seq<byte>, a: nat, n: nat, pref: Prefix, flags: set<Flag>)
    requires BitsShow(m, a, n, pref) && flags - {F_PREFIX_REX} - BAD_OPCODE == pref.Flags()
    ensures PrefixFlagsShow(m, a, n, flags)
  {
    forall f | f in PREFIX_FLAGS && f != F_PREFIX_REX ensures f in flags <==> pref.Shows(f) {
      assert f in flags - {F_PREFIX_REX} - BAD_OPCODE <==> f in pref.Flags();
    }
  }

  lemma FlagsMinus(p: set<Flag>, rex: bool, bad: bool)
    requires p <= PREFIX_FLAGS && F_PREFIX_REX !in p
    ensures var flags := p + (if rex then {F_PREFIX_REX} else {}) + if bad then BAD_OPCODE else {};
            flags - {F_PREFIX_REX} - BAD_OPCODE == p && (F_PREFIX_REX in flags <==> rex)
  {
    var flags := p + (if rex then {F_PREFIX_REX} else {}) + if bad then BAD_OPCODE else {};
    forall f ensures f in flags - {F_PREFIX_REX} - BAD_OPCODE <==> f in p {
      assert f in p ==> f in PREFIX_FLAGS;
    }
  }

  lemma NoRexBit(pref: Prefix)
    ensures pref.Flags() <= PREFIX_FLAGS && F_PREFIX_REX !in pref.Flags()
  {
  }

  lemma RexFieldsKeep(hs: Hde, rex: bool, c: byte)
    ensures var r := RexFields(hs, rex, c);
            && r.p_rep == hs.p_rep && r.p_lock == hs.p_lock && r.p_seg == hs.p_seg && r.p_66 == hs.p_66 && r.p_67 == hs.p_67
  {
  }

  lemma OpcodeRecordShows(t: HdeTable, m: seq<byte>, a: nat, s: Scan, hs: Hde)
    requires s == ScanPrefixes(m, a, Scan(0, CLEARED, NO_PREFIX)) && hs == OpcodeRecord(t, m, a, s)
    ensures FieldsShow(m, a, s.count, hs) && PrefixFlagsShow(m, a, s.count, hs.flags) && Leads(m, a, 0, s.count)
    ensures F_PREFIX_REX in hs.flags <==> HasRex(m, a)
  {
    RunShows(m, a);
    NoRexBit(s.pref);
    RexFieldsKeep(s.hs, HasRex(m, a), Nth(m, a, PrefixBytes(m, a)));
    FlagsMinus(s.pref.Flags(), HasRex(m, a), BadOpcode(t, m, a));
    PrefixFlagsAre(m, a, s.count, s.pref, hs.flags);
  }

  lemma SamePrefixes(m: seq<byte>, a: nat, n: nat, hs: Hde, hs': Hde)
    requires FieldsShow(m, a, n, hs) && PrefixFlagsShow(m, a, n, hs.flags)
    requires SameHead(hs, hs')
    ensures FieldsShow(m, a, n, hs') && PrefixFlagsShow(m, a, n, hs'.flags)
  {
    var head, head' := Head(hs), Head(hs');
    assert head'.p_rep == head.p_rep && head'.p_lock == head.p_lock && head'.p_seg == head.p_seg;
    assert head'.p_66 == head.p_66 && head'.p_67 == head.p_67;
    assert F_PREFIX_REPNZ in PREFIX_FLAGS && F_PREFIX_REPX in PREFIX_FLAGS && F_PREFIX_66 in PREFIX_FLAGS;
    assert F_PREFIX_67 in PREFIX_FLAGS && F_PREFIX_LOCK in PREFIX_FLAGS && F_PREFIX_SEG in PREFIX_FLAGS;
  }

  // The leading prefixes, at most sixteen, and no others decide the prefix fields and flags: the last repeat and the
  // last segment prefix, and whether there is one of each other kind.
  lemma PrefixesShow(t: HdeTable, m: seq<byte>, a: nat)
    ensures var hs, n := Parse(t, m, a).hs, PrefixRun(m, a);
            && Leads(m, a, 0, n) && PrefixBytes(m, a) == (if n == 16 then 15 else n)
            && FieldsShow(m, a, n, hs) && PrefixFlagsShow(m, a, n, hs.flags)
  {
    var s, o, o1 := Stages(t, m, a);
    HeadStays(t, m, a, o, o1, Parse(t, m, a));
    OpcodeRecordShows(t, m, a, s, o.hs);
    SamePrefixes(m, a, s.count, o.hs, Parse(t, m, a).hs);
  }

  // The opcode bytes, and the REX prefix with its four bits.
  predicate OpcodeShown(m: seq<byte>, a: nat, hs: Hde) {
    && hs.opcode == (if Doubled(m, a) then 0 else FirstOpcode(m, a))
    && hs.opcode2 == (if TwoByte(m, a) then LastOpcode(m, a) else 0)
    && RexShown(if HasRex(m, a) then Nth(m, a, PrefixBytes(m, a)) else 0, hs)
  }

  predicate RexShown(rex: byte, hs: Hde) {
    hs.rex_w == rex / 8 % 2 && hs.rex_r == rex / 4 % 2 && hs.rex_x == rex / 2 % 2 && hs.rex_b == rex % 2
  }

  lemma RexFieldsShow(t: HdeTable, m: seq<byte>, a: nat, s: Scan, hs: Hde)
    requires s == ScanPrefixes(m, a, Scan(0, CLEARED, NO_PREFIX)) && hs == OpcodeRecord(t, m, a, s)
    ensures OpcodeShown(m, a, hs)
  {
    ScanKeeps(m, a, Scan(0, CLEARED, NO_PREFIX));
  }

  lemma SameOpcode(m: seq<byte>, a: nat, hs: Hde, hs': Hde)
    requires OpcodeShown(m, a, hs) && Head(hs') == Head(hs)
    ensures OpcodeShown(m, a, hs')
  {
    var head, head' := Head(hs), Head(hs');
    assert head'.opcode == head.opcode && head'.opcode2 == head.opcode2;
    assert head'.rex_w == head.rex_w && head'.rex_r == head.rex_r && head'.rex_x == head.rex_x && head'.rex_b == head.rex_b;
  }

  // Behind the prefixes come a REX prefix, if the byte there is one, and the opcode.
  lemma OpcodeShows(t: HdeTable, m: seq<byte>, a: nat)
    ensures var hs := Parse(t, m, a).hs; OpcodeShown(m, a, hs) && (F_PREFIX_REX in hs.flags <==> HasRex(m, a))
  {
    var s, o, o1 := Stages(t, m, a);
    HeadStays(t, m, a, o, o1, Parse(t, m, a));
    OpcodeRecordShows(t, m, a, s, o.hs);
    RexFieldsShow(t, m, a, s, o.hs);
    SameOpcode(m, a, o.hs, Parse(t, m, a).hs);
    assert F_PREFIX_REX in PREFIX_FLAGS;
  }
}
