/** The x86-64 length decoder: its grammar as functions of the bytes at an address,
    and the pointer-driven method that follows the grammar. */
module Hde64 {
  import opened Bytes
  import opened Table64

  // The bits of a decoded instruction's flags; a flags word is the set of its bits.
  datatype Flag =
    | F_MODRM | F_SIB
    | F_IMM8 | F_IMM16 | F_IMM32 | F_IMM64
    | F_DISP8 | F_DISP16 | F_DISP32
    | F_RELATIVE
    | F_ERROR | F_ERROR_OPCODE | F_ERROR_LENGTH | F_ERROR_LOCK | F_ERROR_OPERAND
    | F_PREFIX_REPNZ | F_PREFIX_REPX | F_PREFIX_66 | F_PREFIX_67 | F_PREFIX_LOCK | F_PREFIX_SEG | F_PREFIX_REX

  // A decoded instruction. The immediate is the 64-bit view of its union.
  datatype Hde = Hde(
    len: nat,
    p_rep: byte, p_lock: byte, p_seg: byte, p_66: byte, p_67: byte,
    rex: byte, rex_w: byte, rex_r: byte, rex_x: byte, rex_b: byte,
    opcode: byte, opcode2: byte,
    modrm: byte, modrm_mod: byte, modrm_reg: byte, modrm_rm: byte,
    sib: byte, sib_scale: byte, sib_index: byte, sib_base: byte,
    imm: nat, disp: nat, flags: set<Flag>)

  const CLEARED := Hde(0, 0, 0, 0, 0, 0, 0, 0, 0, 0, 0, 0, 0, 0, 0, 0, 0, 0, 0, 0, 0, 0, 0, {})

  // The decoder's prefix byte, one field a bit.
  datatype Prefix = Prefix(none: bool, f2: bool, f3: bool, p66: bool, p67: bool, lock: bool, seg: bool) {
    predicate Empty() {
      this == NO_PREFIX
    }

    // pref << 23, which leaves the flags of the prefixes.
    function Flags(): set<Flag> {
      set f: Flag | Shows(f)
    }

    predicate Shows(f: Flag) {
      match f
      case F_PREFIX_REPNZ => f2
      case F_PREFIX_REPX => f3
      case F_PREFIX_66 => p66
      case F_PREFIX_67 => p67
      case F_PREFIX_LOCK => lock
      case F_PREFIX_SEG => seg
      case _ => false
    }

    // mask & pref is not zero.
    predicate Meets(mask: byte) {
      || (none && Has(mask, PRE_NONE)) || (f2 && Has(mask, PRE_F2)) || (f3 && Has(mask, PRE_F3))
      || (p66 && Has(mask, PRE_66)) || (p67 && Has(mask, PRE_67)) || (lock && Has(mask, PRE_LOCK))
      || (seg && Has(mask, PRE_SEG))
    }
  }

  const NO_PREFIX := Prefix(false, false, false, false, false, false, false)

  // v & bit is not zero, for a power of two.
  predicate Has(v: byte, bit: byte)
    requires bit != 0
  {
    v / bit % 2 == 1
  }

  // v | bit, for a power of two.
  function With(v: byte, bit: byte): byte
    requires bit in {C_IMM8, C_IMM_P66}
  {
    if Has(v, bit) then v
    else if bit == C_IMM8 then v / 4 * 4 + 2 + v % 2
    else v / 32 * 32 + 16 + v % 16
  }

  // (v << n) & 0x80 is not zero.
  predicate Top(v: byte, n: nat)
    requires n < 8
  {
    if n == 0 then v / 128 % 2 == 1
    else if n == 1 then v / 64 % 2 == 1
    else if n == 2 then v / 32 % 2 == 1
    else if n == 3 then v / 16 % 2 == 1
    else if n == 4 then v / 8 % 2 == 1
    else if n == 5 then v / 4 % 2 == 1
    else if n == 6 then v / 2 % 2 == 1
    else v % 2 == 1
  }

  // ---------------------------------------------------------------- prefixes

  predicate IsPrefix(c: byte) {
    c in {0xf3, 0xf2, 0xf0, 0x26, 0x2e, 0x36, 0x3e, 0x64, 0x65, 0x66, 0x67}
  }

  datatype Scan = Scan(count: nat, hs: Hde, pref: Prefix)

  function AddPrefix(c: byte, s: Scan): Scan
    requires IsPrefix(c)
  {
    var n := s.count + 1;
    if c == 0xf3 then Scan(n, s.hs.(p_rep := c), s.pref.(f3 := true))
    else if c == 0xf2 then Scan(n, s.hs.(p_rep := c), s.pref.(f2 := true))
    else if c == 0xf0 then Scan(n, s.hs.(p_lock := c), s.pref.(lock := true))
    else if c == 0x66 then Scan(n, s.hs.(p_66 := c), s.pref.(p66 := true))
    else if c == 0x67 then Scan(n, s.hs.(p_67 := c), s.pref.(p67 := true))
    else Scan(n, s.hs.(p_seg := c), s.pref.(seg := true))
  }

  // The leading prefix bytes, 16 at most, from a scan that already passed s.count of them.
  function ScanPrefixes(mem: seq<byte>, a: nat, s: Scan): (r: Scan)
    requires s.count <= 16
    ensures s.count <= r.count <= 16
    decreases 16 - s.count
  {
    var c := Nth(mem, a, s.count);
    if s.count == 16 || !IsPrefix(c) then s else ScanPrefixes(mem, a, AddPrefix(c, s))
  }

  // ---------------------------------------------------------------- REX and opcode

  // What is known once the opcode is read: p bytes are consumed.
  datatype Op = Op(p: nat, hs: Hde, pref: Prefix, op64: bool, opcode: byte, cflags: byte, mask: byte)

  // The table entry of an opcode, through its row.
  function Entry(t: HdeTable, base: nat, op: byte): byte
    requires base in {0, DELTA_OPCODES, DELTA_PREFIXES}
  {
    t[base + t[base + op / 4] + op % 4]
  }

  const BAD_OPCODE: set<Flag> := {F_ERROR, F_ERROR_OPCODE}

  // The first byte after the prefixes and a REX prefix: p bytes are consumed, c is the last of them.
  datatype Rex = Rex(p: nat, c: byte, hs: Hde, pref: Prefix, op64: bool, doubled: bool)

  function ReadRex(mem: seq<byte>, a: nat, s: Scan): Rex
    requires s.count <= 16
  {
    var q := if s.count == 16 then 15 else s.count;
    RexOf(s, q, Nth(mem, a, q), Nth(mem, a, q + 1))
  }

  // The same of the byte at q and the one behind it.
  function RexOf(s: Scan, q: nat, c: byte, c': byte): Rex {
    var hs := s.hs.(flags := s.pref.Flags());
    var pref := if s.pref.Empty() then s.pref.(none := true) else s.pref;
    if c / 16 != 4 then
      Rex(q + 1, c, hs, pref, false, false)
    else
      Rex(q + 2, c', hs.(flags := hs.flags + {F_PREFIX_REX}, rex_w := c % 16 / 8, rex_r := c % 8 / 4,
                         rex_x := c % 4 / 2, rex_b := c % 2),
          pref, c % 16 / 8 != 0 && c' / 8 == 0x17, c' / 16 == 4)
  }

  function ReadOpcode(t: HdeTable, mem: seq<byte>, a: nat, s: Scan): Op
    requires s.count <= 16
  {
    var r := ReadRex(mem, a, s);
    if r.doubled then Op(r.p, r.hs.(flags := r.hs.flags + BAD_OPCODE), r.pref, false, r.c, 0, 0)
    else AfterRex(t, mem, a, r)
  }

  // The opcode starts at r.c: what the table says about it.
  function AfterRex(t: HdeTable, mem: seq<byte>, a: nat, r: Rex): Op {
    var c, hs := r.c, r.hs.(opcode := r.c);
    if c == 0x0f then
      var c2 := Nth(mem, a, r.p);
      Classify(t, DELTA_OPCODES, c2, Op(r.p + 1, hs.(opcode2 := c2), r.pref, r.op64, c2, 0, 0))
    else if 0xa0 <= c <= 0xa3 then
      Classify(t, 0, c, Op(r.p, hs, r.pref.(p66 := r.pref.p67), true, c, 0, 0))
    else
      Classify(t, 0, c, Op(r.p, hs, r.pref, r.op64, c, 0, 0))
  }

  // What the entry of an opcode says; an invalid opcode still takes a ModRM byte if it is 24 or 26.
  function Direct(t: HdeTable, base: nat, op: byte): byte
    requires base in {0, DELTA_OPCODES}
  {
    var entry := Entry(t, base, op);
    if entry == C_ERROR then (if op in {0x24, 0x26} then C_MODRM else 0) else entry
  }

  // What an opcode takes, its group looked up.
  function Resolved(t: HdeTable, base: nat, op: byte): byte
    requires base in {0, DELTA_OPCODES}
  {
    var cflags := Direct(t, base, op);
    if cflags >= C_GROUP then t[base + cflags % 0x80] else cflags
  }

  // The reg fields that a group does not have.
  function GroupMask(t: HdeTable, base: nat, op: byte): byte
    requires base in {0, DELTA_OPCODES}
  {
    var cflags := Direct(t, base, op);
    if cflags >= C_GROUP then t[base + cflags % 0x80 + 1] else 0
  }

  function Classify(t: HdeTable, base: nat, op: byte, o: Op): Op
    requires base in {0, DELTA_OPCODES}
  {
    var bad := Entry(t, base, op) == C_ERROR;
    var wrongPrefix := o.hs.opcode2 != 0 && o.pref.Meets(Entry(t, DELTA_PREFIXES, op));
    o.(cflags := Resolved(t, base, op),
       mask := GroupMask(t, base, op),
       hs := o.hs.(flags := o.hs.flags + (if bad || wrongPrefix then BAD_OPCODE else {})))
  }

  // ---------------------------------------------------------------- checks on the ModRM byte

  // The first row from lo on, stride bytes each, whose first byte is key; hi if there is none.
  function FirstRow(t: seq<byte>, lo: nat, hi: nat, stride: nat, key: byte): (r: nat)
    requires lo <= hi <= |t|
    requires (stride == 2 && (hi - lo) % 2 == 0) || (stride == 3 && (hi - lo) % 3 == 0)
    ensures lo <= r <= hi && (r < hi ==> r + stride <= hi && t[r] == key)
    decreases hi - lo
  {
    assert lo < hi ==> lo + stride <= hi;
    if lo == hi || t[lo] == key then lo else FirstRow(t, lo + stride, hi, stride, key)
  }

  predicate FpuBad(t: HdeTable, opcode: byte, mod: nat, reg: nat, rm: nat)
    requires 0xd9 <= opcode <= 0xdf && reg < 8 && rm < 8
  {
    if mod == 3 then Top(t[DELTA_FPU_MODRM + (opcode - 0xd9) * 8 + reg], rm)
    else Top(t[DELTA_FPU_REG + (opcode - 0xd9)], reg)
  }

  // LOCK is allowed only on a memory operand of an instruction listed with this reg field.
  predicate LockOk(t: HdeTable, opcode: byte, two: bool, mod: nat, reg: nat)
    requires reg < 8
  {
    var lo := if two then DELTA_OP2_LOCK_OK else DELTA_OP_LOCK_OK;
    var hi := if two then DELTA_OP_ONLY_MEM else DELTA_OP2_LOCK_OK;
    var row := FirstRow(t, lo, hi, 2, if two then opcode else opcode - opcode % 2);
    mod != 3 && row < hi && !Top(t[row + 1], reg)
  }

  // The instructions listed as memory-only take no register operand.
  predicate MemoryOnly(t: HdeTable, opcode: byte, two: bool, reg: nat, pref: Prefix)
    requires reg < 8
  {
    var lo := if two then DELTA_OP2_ONLY_MEM else DELTA_OP_ONLY_MEM;
    var hi := if two then TABLE_SIZE else DELTA_OP2_ONLY_MEM;
    var row := FirstRow(t, lo, hi, 3, opcode);
    row < hi && pref.Meets(t[row + 1]) && !Top(t[row + 2], reg)
  }

  predicate OperandBad(t: HdeTable, opcode: byte, two: bool, mod: nat, reg: nat, pref: Prefix)
    requires reg < 8
  {
    if two && opcode in {0x20, 0x22} then reg > 4 || reg == 1
    else if two && opcode in {0x21, 0x23} then reg == 4 || reg == 5
    else if !two && opcode == 0x8c then reg > 5
    else if !two && opcode == 0x8e then reg == 1 || reg > 5
    else if mod == 3 then MemoryOnly(t, opcode, two, reg, pref)
    else if two && opcode in {0x50, 0xd7, 0xf7} then pref.none || pref.p66
    else if two && opcode == 0xd6 then pref.f2 || pref.f3
    else two && opcode == 0xc5
  }

  // The error flags of the ModRM byte.
  function ModRmErrors(t: HdeTable, o: Op, mod: nat, reg: nat, rm: nat): set<Flag>
    requires reg < 8 && rm < 8
  {
    var two := o.hs.opcode2 != 0;
    (if o.mask != 0 && Top(o.mask, reg) then BAD_OPCODE else {})
    + (if !two && 0xd9 <= o.opcode <= 0xdf && FpuBad(t, o.opcode, mod, reg, rm) then BAD_OPCODE else {})
    + (if o.pref.lock && !LockOk(t, o.opcode, two, mod, reg) then {F_ERROR, F_ERROR_LOCK} else {})
    + (if OperandBad(t, o.opcode, two, mod, reg, o.pref) then {F_ERROR, F_ERROR_OPERAND} else {})
  }

  // ---------------------------------------------------------------- ModRM, SIB and displacement

  // The decoder reads the control and debug register moves as register forms.
  function EffectiveMod(o: Op, mod: nat): nat {
    if o.hs.opcode2 != 0 && 0x20 <= o.opcode <= 0x23 then 3 else mod
  }

  function DispSize(mod: nat, rm: nat, p67: bool): nat {
    if mod == 0 then (if p67 then (if rm == 6 then 2 else 0) else if rm == 5 then 4 else 0)
    else if mod == 1 then 1
    else if mod == 2 then (if p67 then 2 else 4)
    else 0
  }

  function DispFlag(size: nat): set<Flag> {
    if size == 1 then {F_DISP8} else if size == 2 then {F_DISP16} else if size == 4 then {F_DISP32} else {}
  }

  // An instruction whose ModRM byte c is read: what is known of it and the displacement it announces.
  datatype Form = Form(o: Op, mod: nat, size: nat) {
    predicate NeedsSib() {
      mod != 3 && o.hs.modrm_rm == 4
    }

    function AddSib(sib: byte): Form {
      Form(o.(p := o.p + 1,
              hs := o.hs.(sib := sib, sib_scale := sib / 64, sib_index := sib % 64 / 8, sib_base := sib % 8,
                          flags := o.hs.flags + {F_SIB})),
           mod,
           if sib % 8 == 5 && mod % 2 == 0 then 4 else size)
    }
  }

  function AddModRm(t: HdeTable, o: Op, c: byte): Form {
    var reg, rm := c % 64 / 8, c % 8;
    var mod := EffectiveMod(o, c / 64);
    var hs := o.hs.(modrm := c, modrm_mod := c / 64, modrm_reg := reg, modrm_rm := rm,
                    flags := o.hs.flags + {F_MODRM} + ModRmErrors(t, o, c / 64, reg, rm));
    var cflags := if reg <= 1 && o.opcode == 0xf6 then With(o.cflags, C_IMM8)
                  else if reg <= 1 && o.opcode == 0xf7 then With(o.cflags, C_IMM_P66)
                  else o.cflags;
    Form(o.(p := o.p + 1, cflags := cflags, hs := hs), mod, DispSize(mod, rm, o.pref.p67))
  }

  function ReadModRm(t: HdeTable, mem: seq<byte>, a: nat, o: Op): Op {
    var f := AddModRm(t, o, Nth(mem, a, o.p));
    ReadDisp(mem, a, if f.NeedsSib() then f.AddSib(Nth(mem, a, f.o.p)) else f)
  }

  function ReadDisp(mem: seq<byte>, a: nat, f: Form): Op {
    f.o.(p := f.o.p + f.size,
         hs := f.o.hs.(disp := Le(mem, a, f.o.p, f.size), flags := f.o.hs.flags + DispFlag(f.size)))
  }

  // ---------------------------------------------------------------- immediates

  function ImmFlag(size: nat): set<Flag> {
    if size == 1 then {F_IMM8} else if size == 2 then {F_IMM16} else if size == 4 then {F_IMM32}
    else if size == 8 then {F_IMM64} else {}
  }

  // Store size bytes over the low bytes of the immediate.
  function Overlay(imm: nat, v: nat, size: nat): nat {
    var unit := if size == 1 then 0x100 else if size == 2 then 0x1_0000 else if size == 4 then TWO32 else TWO64;
    imm / unit * unit + v
  }

  // Read an immediate of size bytes; none if size is zero.
  function ReadImm(mem: seq<byte>, a: nat, size: nat, extra: set<Flag>, o: Op): Op {
    if size == 0 then o
    else o.(p := o.p + size,
            hs := o.hs.(imm := Overlay(o.hs.imm, Le(mem, a, o.p, size), size),
                        flags := o.hs.flags + ImmFlag(size) + extra))
  }

  // The immediates in the order they are read; a branch with a 32-bit target reads nothing else.
  function WideSize(o: Op): nat {
    if !Has(o.cflags, C_IMM_P66) then 0 else if o.op64 then 8 else if o.pref.p66 then 0 else 4
  }

  function WordSize(o: Op): nat {
    if (Has(o.cflags, C_IMM_P66) && !o.op64 && o.pref.p66) || Has(o.cflags, C_IMM16) then 2 else 0
  }

  function ByteSize(o: Op): nat {
    if Has(o.cflags, C_IMM8) then 1 else 0
  }

  function RelativeSize(o: Op): nat {
    if Has(o.cflags, C_REL32) then 4 else if Has(o.cflags, C_REL8) then 1 else 0
  }

  function ReadImmediates(mem: seq<byte>, a: nat, o: Op): Op {
    if Has(o.cflags, C_IMM_P66) && Has(o.cflags, C_REL32) then
      ReadImm(mem, a, if o.pref.p66 then 2 else 4, {F_RELATIVE}, o)
    else
      ReadInOrder(mem, a, WideSize(o), WordSize(o), ByteSize(o), RelativeSize(o), o)
  }

  function ReadInOrder(mem: seq<byte>, a: nat, wide: nat, word: nat, small: nat, relative: nat, o: Op): Op {
    var o1 := ReadImm(mem, a, wide, {}, o);
    var o2 := ReadImm(mem, a, word, {}, o1);
    var o3 := ReadImm(mem, a, small, {}, o2);
    ReadImm(mem, a, relative, {F_RELATIVE}, o3)
  }

  // ---------------------------------------------------------------- the whole instruction

  function Operands(t: HdeTable, mem: seq<byte>, a: nat, o: Op): Op {
    if Has(o.cflags, C_MODRM) then ReadModRm(t, mem, a, o)
    else o.(hs := o.hs.(flags := o.hs.flags + (if o.pref.lock then {F_ERROR, F_ERROR_LOCK} else {})))
  }

  // The instruction at a with the number of bytes it spans, before the length limit.
  function Parse(t: HdeTable, mem: seq<byte>, a: nat): Op {
    ReadImmediates(mem, a, Operands(t, mem, a, ReadOpcode(t, mem, a, ScanPrefixes(mem, a, Scan(0, CLEARED, NO_PREFIX)))))
  }

  // The instruction at a as the decoder reports it.
  function Decode(t: HdeTable, mem: seq<byte>, a: nat): Hde {
    Clamp(Parse(t, mem, a))
  }

  function Clamp(o: Op): Hde {
    var len := o.p % 0x100;
    if len > 15 then o.hs.(len := 15, flags := o.hs.flags + {F_ERROR, F_ERROR_LENGTH})
    else o.hs.(len := len)
  }
}
