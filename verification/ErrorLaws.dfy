/** Which instructions the decoder reports as errors, from their bytes and the table. */
module ErrorLaws {
  import opened Bytes
  import opened Table64
  import opened Hde64
  import opened DecoderLaws
  import opened FormLaws
  import opened RecordLaws

  // ---------------------------------------------------------------- the bits and rows that the checks look at

  function Pow2(n: nat): (p: nat)
    ensures p > 0
  {
    if n == 0 then 1 else 2 * Pow2(n - 1)
  }

  // The top bit of v << n.
  predicate TopBit(v: byte, n: nat) {
    v * Pow2(n) % 0x100 >= 0x80
  }

  lemma Powers()
    ensures Pow2(0) == 1 && Pow2(1) == 2 && Pow2(2) == 4 && Pow2(3) == 8
    ensures Pow2(4) == 16 && Pow2(5) == 32 && Pow2(6) == 64 && Pow2(7) == 128
  {
  }

  lemma ModIs(x: int, q: int, r: int)
    requires x == 0x100 * q + r && 0 <= r < 0x100
    ensures x % 0x100 == r
  {
  }

  lemma LowStaysLow(b: nat, p: nat, q: nat)
    requires b < q && p * q == 0x80
    ensures b * p <= 0x80 - p
  {
    assert (q - 1 - b) * p >= 0;
    assert (q - 1 - b) * p == q * p - p - b * p;
  }

  lemma ProductIs(p: nat, q: nat, a: nat, b: nat)
    requires p * q == 0x80
    ensures (q * a + b) * p == 0x80 * a + b * p
  {
    assert (q * a + b) * p == (q * a) * p + b * p;
    assert (q * a) * p == a * (p * q);
  }

  // Shifting a byte left by p is looking at the bit that q leaves lowest.
  lemma ShiftIs(v: nat, p: nat, q: nat)
    requires p > 0 && q > 0 && p * q == 0x80
    ensures v * p % 0x100 >= 0x80 <==> v / q % 2 == 1
  {
    var a, b := v / q, v % q;
    LowStaysLow(b, p, q);
    ProductIs(p, q, a, b);
    ShiftedIs(v * p, a, b * p);
  }

  lemma ShiftedIs(x: nat, a: nat, low: nat)
    requires x == 0x80 * a + low && low < 0x80
    ensures x % 0x100 >= 0x80 <==> a % 2 == 1
  {
    ModIs(x, a / 2, 0x80 * (a % 2) + low);
  }

  lemma TopIs(v: byte, n: nat)
    requires n < 8
    ensures Top(v, n) <==> TopBit(v, n)
  {
    Powers();
    ShiftIs(v, Pow2(n), Pow2(7 - n));
  }

  // Where row i of a region stands.
  function Row(lo: nat, stride: nat, i: nat): (r: nat)
    ensures r >= lo && (i == 0 ==> r == lo)
  {
    lo + stride * i
  }

  // Row i of a region is the first that starts with a key.
  ghost predicate FirstAt(t: seq<byte>, lo: nat, hi: nat, stride: nat, key: byte, i: nat)
    requires hi <= |t| && stride > 0
  {
    && Row(lo, stride, i) + stride <= hi && t[Row(lo, stride, i)] == key
    && forall j: nat :: j < i ==> NotAt(t, lo, hi, stride, key, j)
  }

  // Row i of a region, if it has one, does not start with a key.
  predicate NotAt(t: seq<byte>, lo: nat, hi: nat, stride: nat, key: byte, i: nat)
    requires hi <= |t|
  {
    Row(lo, stride, i) < hi ==> t[Row(lo, stride, i)] != key
  }

  lemma RowNext(lo: nat, stride: nat, i: nat)
    ensures Row(lo + stride, stride, i) == Row(lo, stride, i + 1)
  {
  }

  lemma NotAtNext(t: seq<byte>, lo: nat, hi: nat, stride: nat, key: byte, i: nat)
    requires hi <= |t| && lo < hi && t[lo] != key && (i > 0 ==> NotAt(t, lo + stride, hi, stride, key, i - 1))
    ensures NotAt(t, lo, hi, stride, key, i)
  {
    if i > 0 {
      RowNext(lo, stride, i - 1);
    }
  }

  // A region of whole rows.
  predicate WholeRows(lo: nat, hi: nat, stride: nat) {
    lo <= hi && ((stride == 2 && (hi - lo) % 2 == 0) || (stride == 3 && (hi - lo) % 3 == 0))
  }

  lemma StepTwo(x: nat)
    requires x > 0 && x % 2 == 0
    ensures x >= 2 && (x - 2) % 2 == 0
  {
  }

  lemma StepThree(x: nat)
    requires x > 0 && x % 3 == 0
    ensures x >= 3 && (x - 3) % 3 == 0
  {
  }

  lemma RowsFit(lo: nat, hi: nat, stride: nat)
    requires WholeRows(lo, hi, stride) && lo < hi
    ensures WholeRows(lo + stride, hi, stride)
  {
    var x := hi - lo;
    if stride == 2 {
      StepTwo(x);
      assert hi - (lo + 2) == x - 2;
    } else {
      StepThree(x);
      assert hi - (lo + 3) == x - 3;
    }
  }

  // The search finds the first row, or its region has none.
  ghost predicate Finds(t: seq<byte>, lo: nat, hi: nat, stride: nat, key: byte, row: nat, i: nat)
    requires hi <= |t| && stride > 0
  {
    if row < hi then FirstAt(t, lo, hi, stride, key, i) && row == Row(lo, stride, i)
    else forall j: nat :: NotAt(t, lo, hi, stride, key, j)
  }

  lemma FindsNext(t: seq<byte>, lo: nat, hi: nat, stride: nat, key: byte, row: nat, i: nat)
    requires hi <= |t| && stride > 0 && lo < hi && t[lo] != key && Finds(t, lo + stride, hi, stride, key, row, i)
    ensures Finds(t, lo, hi, stride, key, row, i + 1)
  {
    RowNext(lo, stride, i);
    forall j: nat | j == 0 || NotAt(t, lo + stride, hi, stride, key, j - 1) ensures NotAt(t, lo, hi, stride, key, j) {
      NotAtNext(t, lo, hi, stride, key, j);
    }
  }

  lemma {:induction false} FirstRowIs(t: seq<byte>, lo: nat, hi: nat, stride: nat, key: byte) returns (i: nat)
    requires WholeRows(lo, hi, stride) && hi <= |t|
    ensures Finds(t, lo, hi, stride, key, FirstRow(t, lo, hi, stride, key), i)
    decreases hi - lo
  {
    i := 0;
    if lo < hi {
      RowsFit(lo, hi, stride);
      if t[lo] != key {
        i := FirstRowIs(t, lo + stride, hi, stride, key);
        FindsNext(t, lo, hi, stride, key, FirstRow(t, lo + stride, hi, stride, key), i);
        i := i + 1;
      }
    }
  }

  // ---------------------------------------------------------------- the checks

  // Row i is the first with this key, and its second byte leaves the bit of the reg field clear.
  ghost predicate LockRow(t: HdeTable, lo: nat, hi: nat, key: byte, reg: nat, i: nat)
    requires hi <= |t|
  {
    FirstAt(t, lo, hi, 2, key, i) && !TopBit(t[Row(lo, 2, i) + 1], reg)
  }

  ghost predicate HasLockRow(t: HdeTable, lo: nat, hi: nat, key: byte, reg: nat)
    requires hi <= |t|
  {
    exists i: nat :: LockRow(t, lo, hi, key, reg, i)
  }

  // The LOCK tables list an opcode with this reg field; the even opcode stands for a pair of one-byte opcodes.
  ghost predicate LockListed(t: HdeTable, two: bool, op: byte, reg: nat) {
    if two then HasLockRow(t, DELTA_OP2_LOCK_OK, DELTA_OP_ONLY_MEM, op, reg)
    else HasLockRow(t, DELTA_OP_LOCK_OK, DELTA_OP2_LOCK_OK, op - op % 2, reg)
  }

  // Row i is the first with this key; its second byte names a kind of prefix that the instruction has, and its third
  // leaves the bit of the reg field clear.
  ghost predicate MemoryRow(t: HdeTable, m: seq<byte>, a: nat, lo: nat, hi: nat, key: byte, reg: nat, i: nat)
    requires hi <= |t|
  {
    && FirstAt(t, lo, hi, 3, key, i)
    && HasKind(m, a, t[Row(lo, 3, i) + 1]) && !TopBit(t[Row(lo, 3, i) + 2], reg)
  }

  ghost predicate HasMemoryRow(t: HdeTable, m: seq<byte>, a: nat, lo: nat, hi: nat, key: byte, reg: nat)
    requires hi <= |t|
  {
    exists i: nat :: MemoryRow(t, m, a, lo, hi, key, reg, i)
  }

  // The memory-only tables list an opcode for these prefixes and this reg field.
  ghost predicate MemoryListed(t: HdeTable, m: seq<byte>, a: nat, two: bool, op: byte, reg: nat) {
    if two then HasMemoryRow(t, m, a, DELTA_OP2_ONLY_MEM, TABLE_SIZE, op, reg)
    else HasMemoryRow(t, m, a, DELTA_OP_ONLY_MEM, DELTA_OP2_ONLY_MEM, op, reg)
  }

  lemma OneFirst(t: seq<byte>, lo: nat, hi: nat, stride: nat, key: byte, i: nat, i': nat)
    requires hi <= |t| && stride > 0 && FirstAt(t, lo, hi, stride, key, i) && FirstAt(t, lo, hi, stride, key, i')
    ensures i == i'
  {
    assert i' < i ==> NotAt(t, lo, hi, stride, key, i');
    assert i < i' ==> NotAt(t, lo, hi, stride, key, i);
  }

  // What is found is the only first row.
  lemma FoundIsFirst(t: seq<byte>, lo: nat, hi: nat, stride: nat, key: byte, row: nat, i: nat, k: nat)
    requires hi <= |t| && stride > 0 && Finds(t, lo, hi, stride, key, row, i) && FirstAt(t, lo, hi, stride, key, k)
    ensures row < hi && k == i
  {
    assert !NotAt(t, lo, hi, stride, key, k);
    if row < hi {
      OneFirst(t, lo, hi, stride, key, i, k);
    }
  }

  lemma LockRowIs(t: HdeTable, lo: nat, hi: nat, key: byte, reg: nat, row: nat)
    requires WholeRows(lo, hi, 2) && hi <= |t| && reg < 8 && row == FirstRow(t, lo, hi, 2, key)
    ensures row < hi && !Top(t[row + 1], reg) <==> HasLockRow(t, lo, hi, key, reg)
  {
    var i := FirstRowIs(t, lo, hi, 2, key);
    if row < hi {
      TopIs(t[row + 1], reg);
    }
    assert row < hi && !Top(t[row + 1], reg) ==> LockRow(t, lo, hi, key, reg, i);
    if k: nat :| LockRow(t, lo, hi, key, reg, k) {
      FoundIsFirst(t, lo, hi, 2, key, row, i, k);
    }
  }

  lemma LockIsListed(t: HdeTable, op: byte, two: bool, mod: nat, reg: nat)
    requires reg < 8
    ensures LockOk(t, op, two, mod, reg) <==> mod != 3 && LockListed(t, two, op, reg)
  {
    if two {
      var lo, hi := DELTA_OP2_LOCK_OK, DELTA_OP_ONLY_MEM;
      LockRowIs(t, lo, hi, op, reg, FirstRow(t, lo, hi, 2, op));
    } else {
      var lo, hi := DELTA_OP_LOCK_OK, DELTA_OP2_LOCK_OK;
      LockRowIs(t, lo, hi, op - op % 2, reg, FirstRow(t, lo, hi, 2, op - op % 2));
    }
  }

  lemma MemoryRowIs(t: HdeTable, m: seq<byte>, a: nat, lo: nat, hi: nat, key: byte, reg: nat, pref: Prefix, row: nat)
    requires WholeRows(lo, hi, 3) && hi <= |t| && reg < 8 && row == FirstRow(t, lo, hi, 3, key) && PrefixShows(m, a, pref)
    ensures row < hi && pref.Meets(t[row + 1]) && !Top(t[row + 2], reg) <==> HasMemoryRow(t, m, a, lo, hi, key, reg)
  {
    var i := FirstRowIs(t, lo, hi, 3, key);
    if row < hi {
      TopIs(t[row + 2], reg);
      MeetsIsKind(m, a, pref, t[row + 1]);
    }
    assert row < hi && pref.Meets(t[row + 1]) && !Top(t[row + 2], reg) ==> MemoryRow(t, m, a, lo, hi, key, reg, i);
    if k: nat :| MemoryRow(t, m, a, lo, hi, key, reg, k) {
      FoundIsFirst(t, lo, hi, 3, key, row, i, k);
    }
  }

  lemma MemoryIsListed(t: HdeTable, m: seq<byte>, a: nat, op: byte, two: bool, reg: nat, pref: Prefix)
    requires reg < 8 && PrefixShows(m, a, pref)
    ensures MemoryOnly(t, op, two, reg, pref) <==> MemoryListed(t, m, a, two, op, reg)
  {
    if two {
      var lo, hi := DELTA_OP2_ONLY_MEM, TABLE_SIZE;
      MemoryRowIs(t, m, a, lo, hi, op, reg, pref, FirstRow(t, lo, hi, 3, op));
    } else {
      var lo, hi := DELTA_OP_ONLY_MEM, DELTA_OP2_ONLY_MEM;
      MemoryRowIs(t, m, a, lo, hi, op, reg, pref, FirstRow(t, lo, hi, 3, op));
    }
  }

  // The FPU tables lack a form.
  predicate FpuLacks(t: HdeTable, op: byte, mod: nat, reg: nat, rm: nat)
    requires 0xd9 <= op <= 0xdf && reg < 8
  {
    if mod == 3 then TopBit(t[DELTA_FPU_MODRM + (op - 0xd9) * 8 + reg], rm)
    else TopBit(t[DELTA_FPU_REG + (op - 0xd9)], reg)
  }

  // An operand byte that asks for a member its group lacks, or for a form its FPU opcode lacks.
  predicate BadMember(t: HdeTable, hs: Hde, op: byte, lacks: byte) {
    && F_MODRM in hs.flags && hs.modrm_reg < 8
    && (TopBit(lacks, hs.modrm_reg)
        || (hs.opcode2 == 0 && 0xd9 <= op <= 0xdf && FpuLacks(t, op, hs.modrm_mod, hs.modrm_reg, hs.modrm_rm)))
  }

  // Operands that an instruction cannot have: control registers but 0, 2, 3 and 4, debug registers 4 and 5, segment
  // registers 6 and 7, the code segment as a target, registers for memory-only instructions, and memory for some
  // two-byte opcodes.
  ghost predicate BadOperand(t: HdeTable, m: seq<byte>, a: nat, hs: Hde, op: byte) {
    var two, reg, n := hs.opcode2 != 0, hs.modrm_reg, PrefixRun(m, a);
    && F_MODRM in hs.flags
    && if two && op in {0x20, 0x22} then reg !in {0, 2, 3, 4}
       else if two && op in {0x21, 0x23} then reg in {4, 5}
       else if !two && op == 0x8c then reg in {6, 7}
       else if !two && op == 0x8e then reg in {1, 6, 7}
       else if hs.modrm_mod == 3 then MemoryListed(t, m, a, two, op, reg)
       else two && ((op in {0x50, 0xd7, 0xf7} && (n == 0 || Short(m, a)))
                    || (op == 0xd6 && (Among(m, a, n, 0xf2) || Among(m, a, n, 0xf3)))
                    || op == 0xc5)
  }

  // LOCK stands only before a memory operand of a listed instruction.
  ghost predicate BadLock(t: HdeTable, m: seq<byte>, a: nat, hs: Hde, op: byte) {
    && Among(m, a, PrefixRun(m, a), 0xf0)
    && !(F_MODRM in hs.flags && hs.modrm_mod != 3 && LockListed(t, hs.opcode2 != 0, op, hs.modrm_reg))
  }

  lemma FpuIs(t: HdeTable, op: byte, mod: nat, reg: nat, rm: nat)
    requires 0xd9 <= op <= 0xdf && reg < 8 && rm < 8
    ensures FpuBad(t, op, mod, reg, rm) <==> FpuLacks(t, op, mod, reg, rm)
  {
    if mod == 3 {
      TopIs(t[DELTA_FPU_MODRM + (op - 0xd9) * 8 + reg], rm);
    } else {
      TopIs(t[DELTA_FPU_REG + (op - 0xd9)], reg);
    }
  }

  lemma OperandIs(t: HdeTable, m: seq<byte>, a: nat, hs: Hde, op: byte, pref: Prefix)
    requires F_MODRM in hs.flags && hs.modrm_reg < 8 && PrefixShows(m, a, pref)
    ensures OperandBad(t, op, hs.opcode2 != 0, hs.modrm_mod, hs.modrm_reg, pref) <==> BadOperand(t, m, a, hs, op)
  {
    MemoryIsListed(t, m, a, op, hs.opcode2 != 0, hs.modrm_reg, pref);
  }

  lemma ErrorsOf(member: bool, fpu: bool, lock: bool, operand: bool, e: set<Flag>)
    requires e == (if member then BAD_OPCODE else {}) + (if fpu then BAD_OPCODE else {})
                  + (if lock then {F_ERROR, F_ERROR_LOCK} else {}) + (if operand then {F_ERROR, F_ERROR_OPERAND} else {})
    ensures F_ERROR_OPCODE in e <==> member || fpu
    ensures F_ERROR_LOCK in e <==> lock
    ensures F_ERROR_OPERAND in e <==> operand
    ensures F_ERROR in e <==> F_ERROR_OPCODE in e || F_ERROR_LOCK in e || F_ERROR_OPERAND in e
  {
  }

  // The errors of an operand byte.
  lemma ModRmErrorsAre(t: HdeTable, m: seq<byte>, a: nat, o: Op, hs: Hde, e: set<Flag>)
    requires F_MODRM in hs.flags && hs.modrm_reg < 8 && hs.modrm_rm < 8 && hs.opcode2 == o.hs.opcode2
    requires PrefixShows(m, a, o.pref) && e == ModRmErrors(t, o, hs.modrm_mod, hs.modrm_reg, hs.modrm_rm)
    ensures F_ERROR_OPCODE in e <==> BadMember(t, hs, o.opcode, o.mask)
    ensures F_ERROR_LOCK in e <==> BadLock(t, m, a, hs, o.opcode)
    ensures F_ERROR_OPERAND in e <==> BadOperand(t, m, a, hs, o.opcode)
    ensures F_ERROR in e <==> F_ERROR_OPCODE in e || F_ERROR_LOCK in e || F_ERROR_OPERAND in e
  {
    var two, mod, reg, rm := o.hs.opcode2 != 0, hs.modrm_mod, hs.modrm_reg, hs.modrm_rm;
    ErrorsOf(o.mask != 0 && Top(o.mask, reg), !two && 0xd9 <= o.opcode <= 0xdf && FpuBad(t, o.opcode, mod, reg, rm),
             o.pref.lock && !LockOk(t, o.opcode, two, mod, reg), OperandBad(t, o.opcode, two, mod, reg, o.pref), e);
    OperandIs(t, m, a, hs, o.opcode, o.pref);
    LockIsListed(t, o.opcode, hs.opcode2 != 0, hs.modrm_mod, hs.modrm_reg);
    TopIs(o.mask, hs.modrm_reg);
    if 0xd9 <= o.opcode <= 0xdf {
      FpuIs(t, o.opcode, hs.modrm_mod, hs.modrm_reg, hs.modrm_rm);
    }
  }

  // The error flags of a record, given whether its opcode is bad by itself.
  ghost predicate ErrorsShown(t: HdeTable, m: seq<byte>, a: nat, op: byte, lacks: byte, bad: bool, hs: Hde) {
    && (F_ERROR_OPCODE in hs.flags <==> bad || BadMember(t, hs, op, lacks))
    && (F_ERROR_LOCK in hs.flags <==> BadLock(t, m, a, hs, op))
    && (F_ERROR_OPERAND in hs.flags <==> BadOperand(t, m, a, hs, op))
    && (F_ERROR in hs.flags <==> F_ERROR_OPCODE in hs.flags || F_ERROR_LOCK in hs.flags || F_ERROR_OPERAND in hs.flags)
  }

  // Reading a SIB byte and a displacement adds their flags alone.
  lemma FormGrows(m: seq<byte>, a: nat, f: Form, r: Op)
    requires r == ReadDisp(m, a, if f.NeedsSib() then f.AddSib(Nth(m, a, f.o.p)) else f)
    ensures r.hs.flags >= f.o.hs.flags
    ensures forall g :: g in r.hs.flags - f.o.hs.flags ==> g in {F_SIB, F_DISP8, F_DISP16, F_DISP32}
    ensures r.hs.modrm_mod == f.o.hs.modrm_mod && r.hs.modrm_reg == f.o.hs.modrm_reg && r.hs.modrm_rm == f.o.hs.modrm_rm
    ensures r.hs.opcode2 == f.o.hs.opcode2
  {
  }

  const ERRORS: set<Flag> := {F_ERROR, F_ERROR_OPCODE, F_ERROR_LOCK, F_ERROR_OPERAND}

  lemma ErrorsStay(before: set<Flag>, now: set<Flag>)
    requires now >= before && forall g :: g in now - before ==> g in {F_SIB, F_DISP8, F_DISP16, F_DISP32}
    ensures forall f :: f in ERRORS || f == F_MODRM ==> (f in now <==> f in before)
  {
    forall f | f in ERRORS || f == F_MODRM ensures f in now <==> f in before {
      assert f in now - before ==> f in {F_SIB, F_DISP8, F_DISP16, F_DISP32};
    }
  }

  // The error flags of an operand byte are added to those of the opcode.
  lemma FormFlags(t: HdeTable, m: seq<byte>, a: nat, o: Op, o1: Op) returns (e: set<Flag>)
    requires Has(o.cflags, C_MODRM) && o1 == Operands(t, m, a, o)
    ensures o1.hs.modrm_reg < 8 && o1.hs.modrm_rm < 8 && o1.hs.opcode2 == o.hs.opcode2 && F_MODRM in o1.hs.flags
    ensures e == ModRmErrors(t, o, o1.hs.modrm_mod, o1.hs.modrm_reg, o1.hs.modrm_rm)
    ensures forall f :: f in ERRORS ==> (f in o1.hs.flags <==> f in o.hs.flags || f in e)
  {
    var c := Nth(m, a, o.p);
    var f := AddModRm(t, o, c);
    e := ModRmErrors(t, o, c / 64, c % 64 / 8, c % 8);
    assert f.o.hs.flags == o.hs.flags + {F_MODRM} + e;
    FormGrows(m, a, f, o1);
    ErrorsStay(f.o.hs.flags, o1.hs.flags);
  }

  lemma ErrorsJoin(t: HdeTable, m: seq<byte>, a: nat, op: byte, lacks: byte, before: set<Flag>, e: set<Flag>, hs: Hde)
    requires F_MODRM in hs.flags && forall f :: f in ERRORS ==> (f in hs.flags <==> f in before || f in e)
    requires F_ERROR_LOCK !in before && F_ERROR_OPERAND !in before && (F_ERROR in before <==> F_ERROR_OPCODE in before)
    requires F_ERROR_OPCODE in e <==> BadMember(t, hs, op, lacks)
    requires F_ERROR_LOCK in e <==> BadLock(t, m, a, hs, op)
    requires F_ERROR_OPERAND in e <==> BadOperand(t, m, a, hs, op)
    requires F_ERROR in e <==> F_ERROR_OPCODE in e || F_ERROR_LOCK in e || F_ERROR_OPERAND in e
    ensures ErrorsShown(t, m, a, op, lacks, F_ERROR_OPCODE in before, hs)
  {
  }

  lemma NoOperandErrors(t: HdeTable, m: seq<byte>, a: nat, o: Op, o1: Op)
    requires !Has(o.cflags, C_MODRM) && NoOperandFields(o.hs) && PrefixShows(m, a, o.pref) && o1 == Operands(t, m, a, o)
    requires F_ERROR in o.hs.flags <==> F_ERROR_OPCODE in o.hs.flags
    ensures ErrorsShown(t, m, a, o.opcode, o.mask, F_ERROR_OPCODE in o.hs.flags, o1.hs)
  {
    assert F_MODRM !in o1.hs.flags;
  }

  lemma OperandErrors(t: HdeTable, m: seq<byte>, a: nat, o: Op, o1: Op)
    requires NoOperandFields(o.hs) && PrefixShows(m, a, o.pref) && o1 == Operands(t, m, a, o)
    requires F_ERROR in o.hs.flags <==> F_ERROR_OPCODE in o.hs.flags
    ensures ErrorsShown(t, m, a, o.opcode, o.mask, F_ERROR_OPCODE in o.hs.flags, o1.hs)
  {
    if Has(o.cflags, C_MODRM) {
      var e := FormFlags(t, m, a, o, o1);
      ModRmErrorsAre(t, m, a, o, o1.hs, e);
      ErrorsJoin(t, m, a, o.opcode, o.mask, o.hs.flags, e, o1.hs);
    } else {
      NoOperandErrors(t, m, a, o, o1);
    }
  }

  lemma SameErrors(t: HdeTable, m: seq<byte>, a: nat, op: byte, lacks: byte, bad: bool, hs: Hde, hs': Hde)
    requires ErrorsShown(t, m, a, op, lacks, bad, hs) && hs'.flags >= hs.flags
    requires hs'.(flags := {}, imm := 0) == hs.(flags := {}, imm := 0)
    requires forall f :: f in hs'.flags - hs.flags ==> f in {F_IMM8, F_IMM16, F_IMM32, F_IMM64, F_RELATIVE}
    ensures ErrorsShown(t, m, a, op, lacks, bad, hs')
  {
    forall f | f in OF_OPERANDS ensures f in hs'.flags <==> f in hs.flags {
      assert f in hs'.flags - hs.flags ==> f in {F_IMM8, F_IMM16, F_IMM32, F_IMM64, F_RELATIVE};
    }
    assert hs'.opcode2 == hs.opcode2 && hs'.modrm_mod == hs.modrm_mod;
    assert hs'.modrm_reg == hs.modrm_reg && hs'.modrm_rm == hs.modrm_rm;
    assert F_MODRM in OF_OPERANDS && F_ERROR in OF_OPERANDS && F_ERROR_OPCODE in OF_OPERANDS;
    assert F_ERROR_LOCK in OF_OPERANDS && F_ERROR_OPERAND in OF_OPERANDS;
  }

  lemma OpcodeErrors(t: HdeTable, m: seq<byte>, a: nat, s: Scan, hs: Hde)
    requires hs == OpcodeRecord(t, m, a, s)
    ensures F_ERROR_OPCODE in hs.flags <==> BadOpcode(t, m, a)
    ensures F_ERROR in hs.flags <==> F_ERROR_OPCODE in hs.flags
  {
    FlagsArePrefixes(s.pref);
  }

  // An instruction is reported as an error exactly for its opcode, its LOCK prefix or its operands; beyond 15 bytes
  // the length is an error too.
  lemma ErrorsShow(t: HdeTable, m: seq<byte>, a: nat, takes: byte, lacks: byte)
    requires Takes(t, m, a, takes, lacks)
    ensures ErrorsShown(t, m, a, LastOpcode(m, a), lacks, BadOpcode(t, m, a), Parse(t, m, a).hs)
  {
    var s, o, o1 := Stages(t, m, a);
    var r := Parse(t, m, a);
    TakesOne(t, m, a, takes, lacks, o.cflags, o.mask);
    OpcodeErrors(t, m, a, s, o.hs);
    OperandErrors(t, m, a, o, o1);
    NoImmAfterOperands(t, m, a, o, o1);
    ImmediatesShow(m, a, o1, r);
    SameErrors(t, m, a, o.opcode, o.mask, F_ERROR_OPCODE in o.hs.flags, o1.hs, r.hs);
  }
}
