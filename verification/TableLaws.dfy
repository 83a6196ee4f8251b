/** What the length decoder relies on in its own table. */
module TableLaws {
  import opened Bytes
  import opened Table64
  import opened Hde64
  import opened DecoderLaws

  // Where the rows of one-byte and two-byte opcodes lead: into the flags region.
  lemma OpcodeRow(i: nat)
    requires i < 0x40
    ensures 0x98 <= HDE64_TABLE[i] <= 0xf1
  {
  }

  lemma Opcode2Row(i: nat)
    requires DELTA_OPCODES <= i < DELTA_OPCODES + 0x40
    ensures 0x52 <= HDE64_TABLE[i] <= 0xaf
  {
  }

  predicate FlagsWellFormed(f: byte) {
    && (f < C_GROUP ==> ShortBranchAlone(f))
    && (f >= C_GROUP && f != C_ERROR ==> f in {0xc0, 0xc2, 0xc4, 0xc6, 0xc8, 0xca, 0xcc})
  }

  lemma FlagsRegionLow(i: nat)
    requires 0x98 <= i < 0xc8
    ensures FlagsWellFormed(HDE64_TABLE[i]) && HDE64_TABLE[i] != 0xca
  {
  }

  lemma FlagsRegionHigh(i: nat)
    requires 0xc8 <= i < DELTA_FPU_REG
    ensures FlagsWellFormed(HDE64_TABLE[i]) && (i <= 0xf4 ==> HDE64_TABLE[i] != 0xca)
  {
  }

  lemma GroupsWellFormed(i: nat)
    requires i in {0x40, 0x42, 0x44, 0x46, 0x48, 0x4c, 0x8a, 0x8c, 0x8e, 0x90, 0x92, 0x94, 0x96}
    ensures ShortBranchAlone(HDE64_TABLE[i])
  {
  }

  // The regions of a table: rows lead into the flags region, whose group references lead to pairs.
  ghost predicate RegionsSound(t: seq<byte>) {
    && |t| == TABLE_SIZE
    && (forall i :: 0 <= i < 0x40 ==> 0x98 <= t[i] <= 0xf1)
    && (forall i :: DELTA_OPCODES <= i < DELTA_OPCODES + 0x40 ==> 0x52 <= t[i] <= 0xaf)
    && (forall i :: 0x98 <= i < DELTA_FPU_REG ==> FlagsWellFormed(t[i]) && (i <= 0xf4 ==> t[i] != 0xca))
    && (forall i :: i in {0x40, 0x42, 0x44, 0x46, 0x48, 0x4c, 0x8a, 0x8c, 0x8e, 0x90, 0x92, 0x94, 0x96} ==> ShortBranchAlone(t[i]))
  }

  lemma TableRegionsSound()
    ensures RegionsSound(HDE64)
  {
    forall i | 0 <= i < 0x40 ensures 0x98 <= HDE64_TABLE[i] <= 0xf1 {
      OpcodeRow(i);
    }
    forall i | DELTA_OPCODES <= i < DELTA_OPCODES + 0x40 ensures 0x52 <= HDE64_TABLE[i] <= 0xaf {
      Opcode2Row(i);
    }
    forall i | 0x98 <= i < DELTA_FPU_REG
      ensures FlagsWellFormed(HDE64_TABLE[i]) && (i <= 0xf4 ==> HDE64_TABLE[i] != 0xca)
    {
      if i < 0xc8 {
        FlagsRegionLow(i);
      } else {
        FlagsRegionHigh(i);
      }
    }
    forall i | i in {0x40, 0x42, 0x44, 0x46, 0x48, 0x4c, 0x8a, 0x8c, 0x8e, 0x90, 0x92, 0x94, 0x96}
      ensures ShortBranchAlone(HDE64_TABLE[i])
    {
      GroupsWellFormed(i);
    }
  }

  // Every opcode lookup ends in the flags region, every group lookup in a group pair.
  lemma LookupsStayInRegion(t: HdeTable, base: nat, op: byte)
    requires RegionsSound(t) && base in {0, DELTA_OPCODES}
    ensures var i := base + t[base + op / 4] + op % 4; 0x98 <= i < DELTA_FPU_REG && (base == 0 ==> i <= 0xf4)
    ensures var f := Direct(t, base, op); f >= C_GROUP ==>
              base + f % 0x80 in {0x40, 0x42, 0x44, 0x46, 0x48, 0x4c, 0x8a, 0x8c, 0x8e, 0x90, 0x92, 0x94, 0x96}
  {
    var i := base + t[base + op / 4] + op % 4;
    assert FlagsWellFormed(t[i]);
  }

  lemma SoundRegionsKeepShortBranchesAlone(t: HdeTable)
    requires RegionsSound(t)
    ensures ShortBranchesAlone(t)
  {
    forall base: nat, op: byte | base in {0, DELTA_OPCODES} ensures ShortBranchAlone(Resolved(t, base, op)) {
      LookupsStayInRegion(t, base, op);
      var i := base + t[base + op / 4] + op % 4;
      assert FlagsWellFormed(t[i]);
    }
  }

  // For the table as it is: every byte of an instruction is accounted for by what is reported of it, the
  // count never wraps around its one byte, the reported length is the count cut at 15, and the cut is flagged.
  lemma Hde64Lengths(m: seq<byte>, a: nat)
    ensures var o, hs := Parse(HDE64, m, a), Decode(HDE64, m, a);
            && o.p == PrefixBytes(m, a) + OpcodeBytes(o.hs) + FlaggedBytes(o.hs.flags)
            && 1 <= o.p <= 39 && 1 <= hs.len <= 15
            && hs.len == (if o.p > 15 then 15 else o.p)
            && (F_ERROR_LENGTH in hs.flags <==> o.p > 15)
  {
    TableRegionsSound();
    SoundRegionsKeepShortBranchesAlone(HDE64);
    LengthAccounting(HDE64, m, a);
    LengthLimit(HDE64, m, a);
  }
}
