/** What the length decoder promises for every byte stream. */
module DecoderLaws {
  import opened Bytes
  import opened Table64
  import opened Hde64

  // ---------------------------------------------------------------- self-delimiting

  lemma {:induction false} ScanAgrees(m: seq<byte>, a: nat, m': seq<byte>, b: nat, s: Scan)
    requires s.count <= 16
    requires Agree(m, a, m', b, ScanPrefixes(m, a, s).count)
    requires ScanPrefixes(m, a, s).count < 16 ==> Agree(m, a, m', b, ScanPrefixes(m, a, s).count + 1)
    ensures ScanPrefixes(m', b, s) == ScanPrefixes(m, a, s)
    decreases 16 - s.count
  {
    var c := Nth(m, a, s.count);
    if s.count < 16 && IsPrefix(c) {
      ScanAgrees(m, a, m', b, AddPrefix(c, s));
    }
  }

  lemma OpcodeAgrees(t: HdeTable, m: seq<byte>, a: nat, m': seq<byte>, b: nat, s: Scan)
    requires s.count <= 16
    requires Agree(m, a, m', b, ReadOpcode(t, m, a, s).p)
    ensures ReadOpcode(t, m', b, s) == ReadOpcode(t, m, a, s)
  {
  }

  lemma {:induction false} LeAgrees(m: seq<byte>, a: nat, m': seq<byte>, b: nat, p: nat, size: nat)
    requires Agree(m, a, m', b, p + size)
    ensures Le(m', b, p, size) == Le(m, a, p, size)
    decreases size
  {
    if size > 0 {
      LeAgrees(m, a, m', b, p + 1, size - 1);
    }
  }

  lemma DispAgrees(m: seq<byte>, a: nat, m': seq<byte>, b: nat, f: Form)
    requires Agree(m, a, m', b, f.o.p + f.size)
    ensures ReadDisp(m', b, f) == ReadDisp(m, a, f)
  {
    LeAgrees(m, a, m', b, f.o.p, f.size);
  }

  lemma ModRmAgrees(t: HdeTable, m: seq<byte>, a: nat, m': seq<byte>, b: nat, o: Op)
    requires Agree(m, a, m', b, ReadModRm(t, m, a, o).p)
    ensures ReadModRm(t, m', b, o) == ReadModRm(t, m, a, o)
  {
    var f := AddModRm(t, o, Nth(m, a, o.p));
    assert f.o.p == o.p + 1;
    assert Nth(m', b, o.p) == Nth(m, a, o.p);
    if f.NeedsSib() {
      assert Nth(m', b, f.o.p) == Nth(m, a, f.o.p);
      DispAgrees(m, a, m', b, f.AddSib(Nth(m, a, f.o.p)));
    } else {
      DispAgrees(m, a, m', b, f);
    }
  }

  lemma ImmAgrees(m: seq<byte>, a: nat, m': seq<byte>, b: nat, size: nat, extra: set<Flag>, o: Op)
    requires Agree(m, a, m', b, o.p + size)
    ensures ReadImm(m', b, size, extra, o) == ReadImm(m, a, size, extra, o)
  {
    LeAgrees(m, a, m', b, o.p, size);
  }

  lemma InOrderAgrees(m: seq<byte>, a: nat, m': seq<byte>, b: nat, wide: nat, word: nat, small: nat, relative: nat, o: Op)
    requires Agree(m, a, m', b, ReadInOrder(m, a, wide, word, small, relative, o).p)
    ensures ReadInOrder(m', b, wide, word, small, relative, o) == ReadInOrder(m, a, wide, word, small, relative, o)
  {
    var o1 := ReadImm(m, a, wide, {}, o);
    var o2 := ReadImm(m, a, word, {}, o1);
    var o3 := ReadImm(m, a, small, {}, o2);
    ImmAgrees(m, a, m', b, wide, {}, o);
    ImmAgrees(m, a, m', b, word, {}, o1);
    ImmAgrees(m, a, m', b, small, {}, o2);
    ImmAgrees(m, a, m', b, relative, {F_RELATIVE}, o3);
  }

  lemma ImmediatesAgree(m: seq<byte>, a: nat, m': seq<byte>, b: nat, o: Op)
    requires Agree(m, a, m', b, ReadImmediates(m, a, o).p)
    ensures ReadImmediates(m', b, o) == ReadImmediates(m, a, o)
  {
    if Has(o.cflags, C_IMM_P66) && Has(o.cflags, C_REL32) {
      ImmAgrees(m, a, m', b, if o.pref.p66 then 2 else 4, {F_RELATIVE}, o);
    } else {
      InOrderAgrees(m, a, m', b, WideSize(o), WordSize(o), ByteSize(o), RelativeSize(o), o);
    }
  }

  lemma OperandsAgree(t: HdeTable, m: seq<byte>, a: nat, m': seq<byte>, b: nat, o: Op)
    requires Agree(m, a, m', b, Operands(t, m, a, o).p)
    ensures Operands(t, m', b, o) == Operands(t, m, a, o)
  {
    if Has(o.cflags, C_MODRM) {
      ModRmAgrees(t, m, a, m', b, o);
    }
  }

  lemma OpcodeAdvances(t: HdeTable, m: seq<byte>, a: nat, s: Scan)
    requires s.count <= 16
    ensures var p := ReadOpcode(t, m, a, s).p; s.count <= p <= 18 && 0 < p && (s.count < 16 ==> s.count < p)
  {
  }

  lemma OperandsAdvance(t: HdeTable, m: seq<byte>, a: nat, o: Op)
    ensures o.p <= Operands(t, m, a, o).p <= o.p + 6
  {
  }

  lemma ImmediatesAdvance(m: seq<byte>, a: nat, o: Op)
    ensures o.p <= ReadImmediates(m, a, o).p <= o.p + 15
  {
  }

  // Whatever follows the bytes that the decoder consumes, and wherever they stand, it reports the same.
  lemma SelfDelimiting(t: HdeTable, m: seq<byte>, a: nat, m': seq<byte>, b: nat)
    requires Agree(m, a, m', b, Parse(t, m, a).p)
    ensures Parse(t, m', b) == Parse(t, m, a)
    ensures Decode(t, m', b) == Decode(t, m, a)
  {
    var none := Scan(0, CLEARED, NO_PREFIX);
    var s := ScanPrefixes(m, a, none);
    var o := ReadOpcode(t, m, a, s);
    var o' := Operands(t, m, a, o);
    OpcodeAdvances(t, m, a, s);
    OperandsAdvance(t, m, a, o);
    ImmediatesAdvance(m, a, o');
    ScanAgrees(m, a, m', b, none);
    OpcodeAgrees(t, m, a, m', b, s);
    OperandsAgree(t, m, a, m', b, o);
    ImmediatesAgree(m, a, m', b, o');
  }

  // ---------------------------------------------------------------- length accounting

  // The bytes that the flags of an instruction announce, besides its opcode.
  function FlaggedBytes(f: set<Flag>): nat {
    (if F_PREFIX_REX in f then 1 else 0) + FlaggedOperands(f) + FlaggedImm(f)
  }

  function FlaggedOperands(f: set<Flag>): nat {
    (if F_MODRM in f then 1 else 0) + (if F_SIB in f then 1 else 0)
    + (if F_DISP8 in f then 1 else 0) + (if F_DISP16 in f then 2 else 0) + (if F_DISP32 in f then 4 else 0)
  }

  function FlaggedImm(f: set<Flag>): nat {
    (if F_IMM8 in f then 1 else 0) + (if F_IMM16 in f then 2 else 0)
    + (if F_IMM32 in f then 4 else 0) + (if F_IMM64 in f then 8 else 0)
  }

  function OpcodeBytes(hs: Hde): nat {
    if hs.opcode == 0x0f then 2 else 1
  }

  predicate NoOperands(f: set<Flag>) {
    F_MODRM !in f && F_SIB !in f && F_DISP8 !in f && F_DISP16 !in f && F_DISP32 !in f
  }

  predicate NoImm(f: set<Flag>) {
    F_IMM8 !in f && F_IMM16 !in f && F_IMM32 !in f && F_IMM64 !in f && F_ERROR_LENGTH !in f
  }

  lemma ErrorsAnnounceNothing(t: HdeTable, o: Op, mod: nat, reg: nat, rm: nat)
    requires reg < 8 && rm < 8
    ensures ModRmErrors(t, o, mod, reg, rm) <= {F_ERROR, F_ERROR_OPCODE, F_ERROR_LOCK, F_ERROR_OPERAND}
  {
  }

  lemma ClassifyAccounting(t: HdeTable, base: nat, op: byte, o: Op)
    requires base in {0, DELTA_OPCODES} && NoOperands(o.hs.flags) && NoImm(o.hs.flags)
    ensures var r := Classify(t, base, op, o);
            && NoOperands(r.hs.flags) && NoImm(r.hs.flags) && r.p == o.p && r.hs.opcode == o.hs.opcode
            && (F_PREFIX_REX in r.hs.flags <==> F_PREFIX_REX in o.hs.flags)
  {
  }

  lemma AfterRexAccounting(t: HdeTable, m: seq<byte>, a: nat, r: Rex)
    requires NoOperands(r.hs.flags) && NoImm(r.hs.flags) && r.p > 0
    ensures var o := AfterRex(t, m, a, r);
            && NoOperands(o.hs.flags) && NoImm(o.hs.flags)
            && o.p == r.p - 1 + OpcodeBytes(o.hs)
            && (F_PREFIX_REX in o.hs.flags <==> F_PREFIX_REX in r.hs.flags)
  {
    var c, hs := r.c, r.hs.(opcode := r.c);
    if c == 0x0f {
      var c2 := Nth(m, a, r.p);
      ClassifyAccounting(t, DELTA_OPCODES, c2, Op(r.p + 1, hs.(opcode2 := c2), r.pref, r.op64, c2, 0, 0));
    } else if 0xa0 <= c <= 0xa3 {
      ClassifyAccounting(t, 0, c, Op(r.p, hs, r.pref.(p66 := r.pref.p67), true, c, 0, 0));
    } else {
      ClassifyAccounting(t, 0, c, Op(r.p, hs, r.pref, r.op64, c, 0, 0));
    }
  }

  lemma RexAccounting(m: seq<byte>, a: nat, s: Scan)
    requires s.count <= 16
    ensures var r := ReadRex(m, a, s);
            && NoOperands(r.hs.flags) && NoImm(r.hs.flags) && r.hs.opcode == s.hs.opcode
            && r.p == (if s.count == 16 then 15 else s.count) + 1 + if F_PREFIX_REX in r.hs.flags then 1 else 0
  {
  }

  lemma OpcodeAccounting(t: HdeTable, m: seq<byte>, a: nat, s: Scan)
    requires s.count <= 16 && s.hs.opcode == 0
    ensures var o := ReadOpcode(t, m, a, s);
            && NoOperands(o.hs.flags) && NoImm(o.hs.flags)
            && o.p == (if s.count == 16 then 15 else s.count) + OpcodeBytes(o.hs)
                      + if F_PREFIX_REX in o.hs.flags then 1 else 0
  {
    var r := ReadRex(m, a, s);
    RexAccounting(m, a, s);
    if !r.doubled {
      AfterRexAccounting(t, m, a, r);
    }
  }

  lemma AddModRmAccounting(t: HdeTable, o: Op, c: byte)
    requires NoOperands(o.hs.flags) && NoImm(o.hs.flags)
    ensures var f := AddModRm(t, o, c).o.hs.flags;
            && F_MODRM in f && NoImm(f) && NoOperands(f - {F_MODRM})
            && (F_PREFIX_REX in f <==> F_PREFIX_REX in o.hs.flags)
  {
    ErrorsAnnounceNothing(t, o, c / 64, c % 64 / 8, c % 8);
  }

  lemma DispAccounting(m: seq<byte>, a: nat, f: Form)
    requires f.size in {0, 1, 2, 4}
    requires NoImm(f.o.hs.flags) && NoOperands(f.o.hs.flags - {F_MODRM, F_SIB})
    ensures var r := ReadDisp(m, a, f);
            && NoImm(r.hs.flags) && OpcodeBytes(r.hs) == OpcodeBytes(f.o.hs)
            && r.p + FlaggedOperands(f.o.hs.flags) == f.o.p + FlaggedOperands(r.hs.flags)
            && (F_PREFIX_REX in r.hs.flags <==> F_PREFIX_REX in f.o.hs.flags)
  {
  }

  lemma OperandsAccounting(t: HdeTable, m: seq<byte>, a: nat, o: Op)
    requires NoOperands(o.hs.flags) && NoImm(o.hs.flags)
    ensures var r := Operands(t, m, a, o);
            && NoImm(r.hs.flags) && OpcodeBytes(r.hs) == OpcodeBytes(o.hs)
            && r.p == o.p + FlaggedOperands(r.hs.flags)
            && (F_PREFIX_REX in r.hs.flags <==> F_PREFIX_REX in o.hs.flags)
  {
    if Has(o.cflags, C_MODRM) {
      var c := Nth(m, a, o.p);
      AddModRmAccounting(t, o, c);
      var f := AddModRm(t, o, c);
      if f.NeedsSib() {
        DispAccounting(m, a, f.AddSib(Nth(m, a, f.o.p)));
      } else {
        DispAccounting(m, a, f);
      }
    }
  }

  // What reading an immediate of size bytes does to the bytes consumed and announced.
  ghost predicate Accounts(o: Op, r: Op, size: nat) {
    && r.p == o.p + size
    && FlaggedImm(r.hs.flags) == FlaggedImm(o.hs.flags) + size
    && FlaggedOperands(r.hs.flags) == FlaggedOperands(o.hs.flags)
    && OpcodeBytes(r.hs) == OpcodeBytes(o.hs)
    && (F_PREFIX_REX in r.hs.flags <==> F_PREFIX_REX in o.hs.flags)
    && (F_ERROR_LENGTH in r.hs.flags <==> F_ERROR_LENGTH in o.hs.flags)
  }

  lemma ImmAccounting(m: seq<byte>, a: nat, size: nat, extra: set<Flag>, o: Op)
    requires size in {0, 1, 2, 4, 8} && extra <= {F_RELATIVE} && (ImmFlag(size) !! o.hs.flags)
    ensures Accounts(o, ReadImm(m, a, size, extra, o), size)
    ensures forall n: nat :: n != size && (ImmFlag(n) !! o.hs.flags)
              ==> (ImmFlag(n) !! ReadImm(m, a, size, extra, o).hs.flags)
  {
  }

  lemma InOrderAccounting(m: seq<byte>, a: nat, wide: nat, word: nat, small: nat, relative: nat, o: Op)
    requires NoImm(o.hs.flags)
    requires wide in {0, 4, 8} && word in {0, 2} && small in {0, 1} && relative in {0, 1, 4}
    requires relative == 0 || (relative != wide && relative != small)
    ensures Accounts(o, ReadInOrder(m, a, wide, word, small, relative, o), wide + word + small + relative)
  {
    var o1 := ReadImm(m, a, wide, {}, o);
    var o2 := ReadImm(m, a, word, {}, o1);
    var o3 := ReadImm(m, a, small, {}, o2);
    ImmAccounting(m, a, wide, {}, o);
    ImmAccounting(m, a, word, {}, o1);
    ImmAccounting(m, a, small, {}, o2);
    ImmAccounting(m, a, relative, {F_RELATIVE}, o3);
  }

  lemma ImmediatesAccounting(m: seq<byte>, a: nat, o: Op)
    requires NoImm(o.hs.flags)
    requires !(Has(o.cflags, C_IMM8) && Has(o.cflags, C_REL8))
    ensures var r := ReadImmediates(m, a, o);
            && r.p == o.p + FlaggedImm(r.hs.flags)
            && OpcodeBytes(r.hs) == OpcodeBytes(o.hs)
            && F_ERROR_LENGTH !in r.hs.flags
            && FlaggedOperands(r.hs.flags) == FlaggedOperands(o.hs.flags)
            && (F_PREFIX_REX in r.hs.flags <==> F_PREFIX_REX in o.hs.flags)
  {
    if Has(o.cflags, C_IMM_P66) && Has(o.cflags, C_REL32) {
      ImmAccounting(m, a, if o.pref.p66 then 2 else 4, {F_RELATIVE}, o);
    } else {
      InOrderAccounting(m, a, WideSize(o), WordSize(o), ByteSize(o), RelativeSize(o), o);
    }
  }

  // A short branch announces nothing else, so no instruction has two byte-sized immediates.
  predicate ShortBranchAlone(cflags: byte) {
    Has(cflags, C_REL8) ==> cflags == C_REL8
  }

  ghost predicate ShortBranchesAlone(t: HdeTable) {
    forall base: nat, op: byte :: base in {0, DELTA_OPCODES} ==> ShortBranchAlone(Resolved(t, base, op))
  }

  lemma OperandsKeepImmediatesApart(t: HdeTable, m: seq<byte>, a: nat, o: Op)
    requires ShortBranchAlone(o.cflags)
    ensures var r := Operands(t, m, a, o); !(Has(r.cflags, C_IMM8) && Has(r.cflags, C_REL8))
  {
    if Has(o.cflags, C_MODRM) {
      assert !Has(o.cflags, C_REL8);
      AddedImmediateIsNoBranch(o.cflags, C_IMM8);
      AddedImmediateIsNoBranch(o.cflags, C_IMM_P66);
      var c := Nth(m, a, o.p);
      var f := AddModRm(t, o, c);
      assert f.o.cflags in {o.cflags, With(o.cflags, C_IMM8), With(o.cflags, C_IMM_P66)};
      assert Operands(t, m, a, o).cflags == f.o.cflags;
    }
  }

  lemma AddedImmediateIsNoBranch(v: byte, bit: byte)
    requires bit in {C_IMM8, C_IMM_P66}
    ensures Has(With(v, bit), C_REL8) == Has(v, C_REL8)
  {
  }

  lemma OpcodeKeepsShortBranchesAlone(t: HdeTable, m: seq<byte>, a: nat, s: Scan)
    requires ShortBranchesAlone(t) && s.count <= 16
    ensures ShortBranchAlone(ReadOpcode(t, m, a, s).cflags)
  {
    var r := ReadRex(m, a, s);
    assert ShortBranchAlone(Resolved(t, 0, r.c));
    assert ShortBranchAlone(Resolved(t, DELTA_OPCODES, Nth(m, a, r.p)));
  }

  lemma {:induction false} ScanKeepsOpcode(m: seq<byte>, a: nat, s: Scan)
    requires s.count <= 16
    ensures ScanPrefixes(m, a, s).hs.opcode == s.hs.opcode
    decreases 16 - s.count
  {
    var c := Nth(m, a, s.count);
    if s.count < 16 && IsPrefix(c) {
      ScanKeepsOpcode(m, a, AddPrefix(c, s));
    }
  }

  // The number of prefix bytes at a. A sixteenth prefix byte in a row is read as the opcode.
  function PrefixBytes(m: seq<byte>, a: nat): nat {
    var count := ScanPrefixes(m, a, Scan(0, CLEARED, NO_PREFIX)).count;
    if count == 16 then 15 else count
  }

  // Every byte of an instruction is accounted for by what the decoder reports of it.
  lemma LengthAccounting(t: HdeTable, m: seq<byte>, a: nat)
    requires ShortBranchesAlone(t)
    ensures var o := Parse(t, m, a);
            && o.p == PrefixBytes(m, a) + OpcodeBytes(o.hs) + FlaggedBytes(o.hs.flags)
            && F_ERROR_LENGTH !in o.hs.flags
  {
    var none := Scan(0, CLEARED, NO_PREFIX);
    var s := ScanPrefixes(m, a, none);
    var o := ReadOpcode(t, m, a, s);
    var o' := Operands(t, m, a, o);
    ScanKeepsOpcode(m, a, none);
    OpcodeAccounting(t, m, a, s);
    OpcodeKeepsShortBranchesAlone(t, m, a, s);
    OperandsAccounting(t, m, a, o);
    OperandsKeepImmediatesApart(t, m, a, o);
    ImmediatesAccounting(m, a, o');
  }

  lemma ParseAdvances(t: HdeTable, m: seq<byte>, a: nat)
    ensures 1 <= Parse(t, m, a).p <= 39
  {
    var s := ScanPrefixes(m, a, Scan(0, CLEARED, NO_PREFIX));
    var o := ReadOpcode(t, m, a, s);
    var o' := Operands(t, m, a, o);
    OpcodeAdvances(t, m, a, s);
    OperandsAdvance(t, m, a, o);
    ImmediatesAdvance(m, a, o');
  }

  lemma ClampLimits(o: Op)
    requires 1 <= o.p <= 39
    ensures var hs := Clamp(o);
            && hs.len == (if o.p > 15 then 15 else o.p)
            && hs.flags == o.hs.flags + (if o.p > 15 then {F_ERROR, F_ERROR_LENGTH} else {})
  {
  }

  // The byte count never wraps, the reported length is the count cut at 15, and the cut is flagged.
  lemma LengthLimit(t: HdeTable, m: seq<byte>, a: nat)
    requires ShortBranchesAlone(t)
    ensures var n, hs := Parse(t, m, a).p, Decode(t, m, a);
            && 1 <= n <= 39
            && hs.len == (if n > 15 then 15 else n)
            && (F_ERROR_LENGTH in hs.flags <==> n > 15)
            && (n > 15 ==> F_ERROR in hs.flags)
  {
    LengthAccounting(t, m, a);
    ParseAdvances(t, m, a);
    ClampLimits(Parse(t, m, a));
  }

  // A decode without error reports exactly the bytes it consumed.
  lemma CleanLength(t: HdeTable, m: seq<byte>, a: nat)
    requires F_ERROR !in Decode(t, m, a).flags
    ensures Decode(t, m, a).len == Parse(t, m, a).p && 1 <= Parse(t, m, a).p <= 15
  {
    ParseAdvances(t, m, a);
    ClampLimits(Parse(t, m, a));
  }
}
