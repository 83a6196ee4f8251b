/** hde64_disasm as it runs: a pointer that moves over the code, a record filled field by field. */
module Disassembler {
  import opened Bytes
  import opened Table64
  import opened Hde64

  const START := Scan(0, CLEARED, NO_PREFIX)

  // One turn of the prefix loop: the byte is noted if it is a prefix.
  method NotePrefix(c: byte, ghost s: Scan, hs0: Hde, pref0: Prefix) returns (known: bool, hs: Hde, pref: Prefix)
    requires s.hs == hs0 && s.pref == pref0
    ensures known == IsPrefix(c)
    ensures Scan(s.count + 1, hs, pref) == if known then AddPrefix(c, s) else Scan(s.count + 1, hs0, pref0)
  {
    known, hs, pref := true, hs0, pref0;
    match c {
      case 0xf3 => hs, pref := hs.(p_rep := c), pref.(f3 := true);
      case 0xf2 => hs, pref := hs.(p_rep := c), pref.(f2 := true);
      case 0xf0 => hs, pref := hs.(p_lock := c), pref.(lock := true);
      case 0x26 | 0x2e | 0x36 | 0x3e | 0x64 | 0x65 => hs, pref := hs.(p_seg := c), pref.(seg := true);
      case 0x66 => hs, pref := hs.(p_66 := c), pref.(p66 := true);
      case 0x67 => hs, pref := hs.(p_67 := c), pref.(p67 := true);
      case _ => known := false;
    }
  }

  method SkipPrefixes(mem: seq<byte>, a: nat) returns (p: nat, c: byte, hs: Hde, pref: Prefix)
    ensures var s := ScanPrefixes(mem, a, START);
            && hs == s.hs && pref == s.pref
            && p == (if s.count == 16 then 15 else s.count) + 1 && c == Nth(mem, a, p - 1)
  {
    hs, pref, p, c := CLEARED, NO_PREFIX, 0, 0;
    var x := 16;
    while x > 0
      invariant 0 <= x <= 16 && p == 16 - x
      invariant ScanPrefixes(mem, a, START) == ScanPrefixes(mem, a, Scan(p, hs, pref))
      invariant x < 16 ==> c == Nth(mem, a, p - 1)
    {
      ghost var s := Scan(p, hs, pref);
      c, p := Nth(mem, a, p), p + 1;
      var known;
      known, hs, pref := NotePrefix(c, s, hs, pref);
      if !known {
        assert ScanPrefixes(mem, a, s) == s;
        return;
      }
      assert Scan(p, hs, pref) == AddPrefix(c, s);
      x := x - 1;
    }
  }

  method SkipRex(mem: seq<byte>, a: nat, ghost s: Scan, p0: nat, c0: byte, pref0: Prefix, hs0: Hde) returns (r: Rex)
    requires s.count <= 16 && hs0 == s.hs && pref0 == s.pref
    requires p0 == (if s.count == 16 then 15 else s.count) + 1 && c0 == Nth(mem, a, p0 - 1)
    ensures r == ReadRex(mem, a, s)
  {
    var p, c, hs, pref := p0, c0, hs0, pref0;
    var op64, doubled := false, false;
    hs := hs.(flags := pref.Flags());
    if pref == NO_PREFIX {
      pref := pref.(none := true);
    }
    if c / 16 == 4 {
      hs := hs.(flags := hs.flags + {F_PREFIX_REX});
      hs := hs.(rex_w := c % 16 / 8);
      if hs.rex_w != 0 && Nth(mem, a, p) / 8 == 0x17 {
        op64 := true;
      }
      hs := hs.(rex_r := c % 8 / 4, rex_x := c % 4 / 2, rex_b := c % 2);
      c, p := Nth(mem, a, p), p + 1;
      doubled := c / 16 == 4;
    }
    return Rex(p, c, hs, pref, op64, doubled);
  }

  method LookUp(t: HdeTable, ht: nat, opcode: byte, o: Op) returns (r: Op)
    requires ht in {0, DELTA_OPCODES}
    ensures r == Classify(t, ht, opcode, o)
  {
    var hs := o.hs;
    var cflags := t[ht + t[ht + opcode / 4] + opcode % 4];
    if cflags == C_ERROR {
      hs := hs.(flags := hs.flags + {F_ERROR, F_ERROR_OPCODE});
      cflags := 0;
      if opcode == 0x24 || opcode == 0x26 {
        cflags := cflags + 1;
      }
    }
    var x: byte := 0;
    if cflags >= C_GROUP {
      var group := ht + cflags % 0x80;
      cflags, x := t[group], t[group + 1];
    }
    if hs.opcode2 != 0 {
      var prefixes := DELTA_PREFIXES;
      if o.pref.Meets(t[prefixes + t[prefixes + opcode / 4] + opcode % 4]) {
        hs := hs.(flags := hs.flags + {F_ERROR, F_ERROR_OPCODE});
      }
    }
    return o.(hs := hs, cflags := cflags, mask := x);
  }

  method FetchOpcode(t: HdeTable, mem: seq<byte>, a: nat) returns (o: Op)
    ensures o == ReadOpcode(t, mem, a, ScanPrefixes(mem, a, START))
  {
    var p, c, hs, pref := SkipPrefixes(mem, a);
    var r := SkipRex(mem, a, ScanPrefixes(mem, a, START), p, c, pref, hs);
    var op64;
    p, c, hs, pref, op64 := r.p, r.c, r.hs, r.pref, r.op64;
    if r.doubled {
      return Op(p, hs.(flags := hs.flags + {F_ERROR, F_ERROR_OPCODE}), pref, op64, c, 0, 0);
    }
    var ht := 0;
    hs := hs.(opcode := c);
    if c == 0x0f {
      c, p := Nth(mem, a, p), p + 1;
      hs := hs.(opcode2 := c);
      ht := DELTA_OPCODES;
    } else if 0xa0 <= c <= 0xa3 {
      op64 := true;
      pref := pref.(p66 := pref.p67);
    }
    o := LookUp(t, ht, c, Op(p, hs, pref, op64, c, 0, 0));
  }

  // The search of the LOCK tables, two bytes a row.
  method CheckLock(t: HdeTable, opcode: byte, two: bool, mod: nat, reg: nat) returns (ok: bool)
    requires reg < 8
    ensures ok == LockOk(t, opcode, two, mod, reg)
  {
    if mod == 3 {
      return false;
    }
    var ht, tableEnd, op := DELTA_OP_LOCK_OK, DELTA_OP2_LOCK_OK, opcode - opcode % 2;
    if two {
      ht, tableEnd, op := DELTA_OP2_LOCK_OK, DELTA_OP_ONLY_MEM, opcode;
    }
    ghost var lo := ht;
    while ht != tableEnd
      invariant lo <= ht <= tableEnd <= |t| && (tableEnd - ht) % 2 == 0 && (ht - lo) % 2 == 0
      invariant FirstRow(t, lo, tableEnd, 2, op) == FirstRow(t, ht, tableEnd, 2, op)
      decreases tableEnd - ht
    {
      var row := t[ht];
      ht := ht + 1;
      if row == op {
        return !Top(t[ht], reg);
      }
      ht := ht + 1;
    }
    return false;
  }

  // The search of the memory-only tables, three bytes a row.
  method CheckMemoryOnly(t: HdeTable, opcode: byte, two: bool, reg: nat, pref: Prefix) returns (bad: bool)
    requires reg < 8
    ensures bad == MemoryOnly(t, opcode, two, reg, pref)
  {
    var ht, tableEnd := DELTA_OP_ONLY_MEM, DELTA_OP2_ONLY_MEM;
    if two {
      ht, tableEnd := DELTA_OP2_ONLY_MEM, TABLE_SIZE;
    }
    ghost var lo := ht;
    while ht != tableEnd
      invariant lo <= ht <= tableEnd <= |t| && (tableEnd - ht) % 3 == 0 && (ht - lo) % 3 == 0
      invariant FirstRow(t, lo, tableEnd, 3, opcode) == FirstRow(t, ht, tableEnd, 3, opcode)
      decreases tableEnd - ht
    {
      var row := t[ht];
      ht := ht + 1;
      if row == opcode {
        return pref.Meets(t[ht]) && !Top(t[ht + 1], reg);
      }
      ht := ht + 2;
    }
    return false;
  }

  method CheckOperand(t: HdeTable, opcode: byte, two: bool, m_mod: nat, reg: nat, pref: Prefix) returns (bad: bool, mod: nat)
    requires reg < 8
    ensures bad == OperandBad(t, opcode, two, m_mod, reg, pref)
    ensures mod == if two && 0x20 <= opcode <= 0x23 then 3 else m_mod
  {
    mod := m_mod;
    bad := false;
    if two && (opcode == 0x20 || opcode == 0x22) {
      mod := 3;
      bad := reg > 4 || reg == 1;
    } else if two && (opcode == 0x21 || opcode == 0x23) {
      mod := 3;
      bad := reg == 4 || reg == 5;
    } else if !two && opcode == 0x8c {
      bad := reg > 5;
    } else if !two && opcode == 0x8e {
      bad := reg == 1 || reg > 5;
    } else if mod == 3 {
      bad := CheckMemoryOnly(t, opcode, two, reg, pref);
    } else if two {
      match opcode {
        case 0x50 | 0xd7 | 0xf7 => bad := pref.none || pref.p66;
        case 0xd6 => bad := pref.f2 || pref.f3;
        case 0xc5 => bad := true;
        case _ =>
      }
    }
  }

  // The checks that follow the ModRM byte; mod becomes 3 for moves of control and debug registers.
  method CheckOperands(t: HdeTable, o: Op, m_mod: nat, reg: nat, rm: nat) returns (flags: set<Flag>, mod: nat)
    requires reg < 8 && rm < 8
    ensures flags == o.hs.flags + {F_MODRM} + ModRmErrors(t, o, m_mod, reg, rm)
    ensures mod == EffectiveMod(o, m_mod)
  {
    flags, mod := o.hs.flags + {F_MODRM}, m_mod;
    var two, opcode := o.hs.opcode2 != 0, o.opcode;
    if o.mask != 0 && Top(o.mask, reg) {
      flags := flags + {F_ERROR, F_ERROR_OPCODE};
    }
    if !two && 0xd9 <= opcode <= 0xdf {
      var f := opcode - 0xd9;
      var bad;
      if mod == 3 {
        bad := Top(t[DELTA_FPU_MODRM + f * 8 + reg], rm);
      } else {
        bad := Top(t[DELTA_FPU_REG + f], reg);
      }
      if bad {
        flags := flags + {F_ERROR, F_ERROR_OPCODE};
      }
    }
    if o.pref.lock {
      var ok := CheckLock(t, opcode, two, mod, reg);
      if !ok {
        flags := flags + {F_ERROR, F_ERROR_LOCK};
      }
    }
    var bad;
    bad, mod := CheckOperand(t, opcode, two, mod, reg, o.pref);
    if bad {
      flags := flags + {F_ERROR, F_ERROR_OPERAND};
    }
  }

  method MeasureDisp(mod: nat, rm: nat, p67: bool) returns (dispSize: nat)
    ensures dispSize == DispSize(mod, rm, p67)
  {
    dispSize := 0;
    match mod {
      case 0 =>
        if p67 {
          if rm == 6 {
            dispSize := 2;
          }
        } else if rm == 5 {
          dispSize := 4;
        }
      case 1 =>
        dispSize := 1;
      case 2 =>
        dispSize := 2;
        if !p67 {
          dispSize := dispSize * 2;
        }
      case _ =>
    }
  }

  method FetchForm(t: HdeTable, o: Op, c: byte) returns (f: Form)
    ensures f == AddModRm(t, o, c)
  {
    var hs, cflags := o.hs, o.cflags;
    var m_rm, m_reg := c % 8, c % 64 / 8;
    hs := hs.(modrm := c, modrm_mod := c / 64, modrm_rm := m_rm, modrm_reg := m_reg);
    var flags, m_mod := CheckOperands(t, o, c / 64, m_reg, m_rm);
    hs := hs.(flags := flags);
    if m_reg <= 1 {
      if o.opcode == 0xf6 {
        cflags := With(cflags, C_IMM8);
      } else if o.opcode == 0xf7 {
        cflags := With(cflags, C_IMM_P66);
      }
    }
    var dispSize := MeasureDisp(m_mod, m_rm, o.pref.p67);
    return Form(o.(p := o.p + 1, cflags := cflags, hs := hs), m_mod, dispSize);
  }

  method FetchModRm(t: HdeTable, mem: seq<byte>, a: nat, o: Op) returns (r: Op)
    ensures r == ReadModRm(t, mem, a, o)
  {
    var f := FetchForm(t, o, Nth(mem, a, o.p));
    var p, hs, dispSize := f.o.p, f.o.hs, f.size;
    var c := Nth(mem, a, p);
    p := p + 1;
    if f.mod != 3 && hs.modrm_rm == 4 {
      hs := hs.(flags := hs.flags + {F_SIB});
      p := p + 1;
      hs := hs.(sib := c, sib_scale := c / 64, sib_index := c % 64 / 8, sib_base := c % 8);
      if hs.sib_base == 5 && f.mod % 2 == 0 {
        dispSize := 4;
      }
    }
    p := p - 1;
    hs := hs.(flags := hs.flags + DispFlag(dispSize), disp := Le(mem, a, p, dispSize));
    p := p + dispSize;
    return f.o.(p := p, hs := hs);
  }

  method FetchImmediates(mem: seq<byte>, a: nat, o: Op) returns (r: Op)
    ensures r == ReadImmediates(mem, a, o)
  {
    r := o;
    var imm16 := Has(o.cflags, C_IMM16);
    if Has(o.cflags, C_IMM_P66) {
      if Has(o.cflags, C_REL32) {
        return ReadImm(mem, a, if o.pref.p66 then 2 else 4, {F_RELATIVE}, r);
      }
      if o.op64 {
        r := ReadImm(mem, a, 8, {}, r);
      } else if !o.pref.p66 {
        r := ReadImm(mem, a, 4, {}, r);
      } else {
        imm16 := true;
      }
    }
    if imm16 {
      r := ReadImm(mem, a, 2, {}, r);
    }
    if Has(o.cflags, C_IMM8) {
      r := ReadImm(mem, a, 1, {}, r);
    }
    if Has(o.cflags, C_REL32) {
      r := ReadImm(mem, a, 4, {F_RELATIVE}, r);
    } else if Has(o.cflags, C_REL8) {
      r := ReadImm(mem, a, 1, {F_RELATIVE}, r);
    }
  }

  method FetchOperands(t: HdeTable, mem: seq<byte>, a: nat, o: Op) returns (r: Op)
    ensures r == Operands(t, mem, a, o)
  {
    r := o;
    if Has(o.cflags, C_MODRM) {
      r := FetchModRm(t, mem, a, o);
    } else if o.pref.lock {
      r := o.(hs := o.hs.(flags := o.hs.flags + {F_ERROR, F_ERROR_LOCK}));
    }
  }

  method LimitLength(o: Op) returns (len: nat, hs: Hde)
    ensures hs == Clamp(o) && len == hs.len
  {
    hs := o.hs.(len := o.p % 0x100);
    if hs.len > 15 {
      hs := hs.(flags := hs.flags + {F_ERROR, F_ERROR_LENGTH}, len := 15);
    }
    return hs.len, hs;
  }

  // The instruction at a.
  method Disassemble(t: HdeTable, mem: seq<byte>, a: nat) returns (len: nat, hs: Hde)
    ensures hs == Decode(t, mem, a) && len == hs.len
  {
    var opcode := FetchOpcode(t, mem, a);
    var operands := FetchOperands(t, mem, a, opcode);
    var o := FetchImmediates(mem, a, operands);
    len, hs := LimitLength(o);
  }
}
