/** The compressed opcode table of the length decoder and the offsets and masks it is read with. */
module Table64 {
  import opened Bytes

  // What an opcode takes after its own bytes.
  const C_MODRM: byte := 0x01
  const C_IMM8: byte := 0x02
  const C_IMM16: byte := 0x04
  const C_IMM_P66: byte := 0x10
  const C_REL8: byte := 0x20
  const C_REL32: byte := 0x40
  const C_GROUP: byte := 0x80
  const C_ERROR: byte := 0xff

  // Which prefixes an instruction has.
  const PRE_NONE: byte := 0x01
  const PRE_F2: byte := 0x02
  const PRE_F3: byte := 0x04
  const PRE_66: byte := 0x08
  const PRE_67: byte := 0x10
  const PRE_LOCK: byte := 0x20
  const PRE_SEG: byte := 0x40

  const DELTA_OPCODES: nat := 0x4a
  const DELTA_FPU_REG: nat := 0xfd
  const DELTA_FPU_MODRM: nat := 0x104
  const DELTA_PREFIXES: nat := 0x13c
  const DELTA_OP_LOCK_OK: nat := 0x1ae
  const DELTA_OP2_LOCK_OK: nat := 0x1c6
  const DELTA_OP_ONLY_MEM: nat := 0x1d8
  const DELTA_OP2_ONLY_MEM: nat := 0x1e7
  const TABLE_SIZE: nat := 529

  // The table, in parts that hold its rows in order.
  function Byte0(i: nat): byte
    requires i < 90
  {
    if i < 15 then [0xa5, 0xaa, 0xa5, 0xb8, 0xa5, 0xaa, 0xa5, 0xaa, 0xa5, 0xb8, 0xa5, 0xb8, 0xa5, 0xb8, 0xa5][i] else
    if i < 30 then [0xb8, 0xc0, 0xc0, 0xc0, 0xc0, 0xc0, 0xc0, 0xc0, 0xc0, 0xac, 0xc0, 0xcc, 0xc0, 0xa1, 0xa1][i - 15] else
    if i < 45 then [0xa1, 0xa1, 0xb1, 0xa5, 0xa5, 0xa6, 0xc0, 0xc0, 0xd7, 0xda, 0xe0, 0xc0, 0xe4, 0xc0, 0xea][i - 30] else
    if i < 60 then [0xea, 0xe0, 0xe0, 0x98, 0xc8, 0xee, 0xf1, 0xa5, 0xd3, 0xa5, 0xa5, 0xa1, 0xea, 0x9e, 0xc0][i - 45] else
    if i < 75 then [0xc0, 0xc2, 0xc0, 0xe6, 0x03, 0x7f, 0x11, 0x7f, 0x01, 0x7f, 0x01, 0x3f, 0x01, 0x01, 0xab][i - 60] else
    [0x8b, 0x90, 0x64, 0x5b, 0x5b, 0x5b, 0x5b, 0x5b, 0x92, 0x5b, 0x5b, 0x76, 0x90, 0x92, 0x92][i - 75]
  }

  const PART0: seq<byte> := seq(90, i requires 0 <= i < 90 => Byte0(i))

  function Byte1(i: nat): byte
    requires i < 90
  {
    if i < 15 then [0x5b, 0x5b, 0x5b, 0x5b, 0x5b, 0x5b, 0x5b, 0x5b, 0x5b, 0x5b, 0x5b, 0x5b, 0x6a, 0x73, 0x90][i] else
    if i < 30 then [0x5b, 0x52, 0x52, 0x52, 0x52, 0x5b, 0x5b, 0x5b, 0x5b, 0x77, 0x7c, 0x77, 0x85, 0x5b, 0x5b][i - 15] else
    if i < 45 then [0x70, 0x5b, 0x7a, 0xaf, 0x76, 0x76, 0x5b, 0x5b, 0x5b, 0x5b, 0x5b, 0x5b, 0x5b, 0x5b, 0x5b][i - 30] else
    if i < 60 then [0x5b, 0x5b, 0x86, 0x01, 0x03, 0x01, 0x04, 0x03, 0xd5, 0x03, 0xd5, 0x03, 0xcc, 0x01, 0xbc][i - 45] else
    if i < 75 then [0x03, 0xf0, 0x03, 0x03, 0x04, 0x00, 0x50, 0x50, 0x50, 0x50, 0xff, 0x20, 0x20, 0x20, 0x20][i - 60] else
    [0x01, 0x01, 0x01, 0x01, 0xc4, 0x02, 0x10, 0xff, 0xff, 0xff, 0x01, 0x00, 0x03, 0x11, 0xff][i - 75]
  }

  const PART1: seq<byte> := seq(90, i requires 0 <= i < 90 => Byte1(i))

  function Byte2(i: nat): byte
    requires i < 90
  {
    if i < 15 then [0x03, 0xc4, 0xc6, 0xc8, 0x02, 0x10, 0x00, 0xff, 0xcc, 0x01, 0x01, 0x01, 0x00, 0x00, 0x00][i] else
    if i < 30 then [0x00, 0x01, 0x01, 0x03, 0x01, 0xff, 0xff, 0xc0, 0xc2, 0x10, 0x11, 0x02, 0x03, 0x01, 0x01][i - 15] else
    if i < 45 then [0x01, 0xff, 0xff, 0xff, 0x00, 0x00, 0x00, 0xff, 0x00, 0x00, 0xff, 0xff, 0xff, 0xff, 0x10][i - 30] else
    if i < 60 then [0x10, 0x10, 0x10, 0x02, 0x10, 0x00, 0x00, 0xc6, 0xc8, 0x02, 0x02, 0x02, 0x02, 0x06, 0x00][i - 45] else
    if i < 75 then [0x04, 0x00, 0x02, 0xff, 0x00, 0xc0, 0xc2, 0x01, 0x01, 0x03, 0x03, 0x03, 0xca, 0x40, 0x00][i - 60] else
    [0x0a, 0x00, 0x04, 0x00, 0x00, 0x00, 0x00, 0x7f, 0x00, 0x33, 0x01, 0x00, 0x00, 0x00, 0x00][i - 75]
  }

  const PART2: seq<byte> := seq(90, i requires 0 <= i < 90 => Byte2(i))

  function Byte3(i: nat): byte
    requires i < 90
  {
    if i < 15 then [0x00, 0x00, 0xff, 0xbf, 0xff, 0xff, 0x00, 0x00, 0x00, 0x00, 0x07, 0x00, 0x00, 0xff, 0x00][i] else
    if i < 30 then [0x00, 0x00, 0x00, 0x00, 0x00, 0x00, 0x00, 0x00, 0x00, 0x00, 0x00, 0x00, 0x00, 0xff, 0xff][i - 15] else
    if i < 45 then [0x00, 0x00, 0x00, 0xbf, 0x00, 0x00, 0x00, 0x00, 0x00, 0x00, 0x00, 0x00, 0x7f, 0x00, 0x00][i - 30] else
    if i < 60 then [0xff, 0x40, 0x40, 0x40, 0x40, 0x41, 0x49, 0x40, 0x40, 0x40, 0x40, 0x4c, 0x42, 0x40, 0x40][i - 45] else
    if i < 75 then [0x40, 0x40, 0x40, 0x40, 0x40, 0x40, 0x4f, 0x44, 0x53, 0x40, 0x40, 0x40, 0x44, 0x57, 0x43][i - 60] else
    [0x5c, 0x40, 0x60, 0x40, 0x40, 0x40, 0x40, 0x40, 0x40, 0x40, 0x40, 0x40, 0x40, 0x40, 0x40][i - 75]
  }

  const PART3: seq<byte> := seq(90, i requires 0 <= i < 90 => Byte3(i))

  function Byte4(i: nat): byte
    requires i < 90
  {
    if i < 15 then [0x40, 0x40, 0x64, 0x66, 0x6e, 0x6b, 0x40, 0x40, 0x6a, 0x46, 0x40, 0x40, 0x44, 0x46, 0x40][i] else
    if i < 30 then [0x40, 0x5b, 0x44, 0x40, 0x40, 0x00, 0x00, 0x00, 0x00, 0x06, 0x06, 0x06, 0x06, 0x01, 0x06][i - 15] else
    if i < 45 then [0x06, 0x02, 0x06, 0x06, 0x00, 0x06, 0x00, 0x0a, 0x0a, 0x00, 0x00, 0x00, 0x02, 0x07, 0x07][i - 30] else
    if i < 60 then [0x06, 0x02, 0x0d, 0x06, 0x06, 0x06, 0x0e, 0x05, 0x05, 0x02, 0x02, 0x00, 0x00, 0x04, 0x04][i - 45] else
    if i < 75 then [0x04, 0x04, 0x05, 0x06, 0x06, 0x06, 0x00, 0x00, 0x00, 0x0e, 0x00, 0x00, 0x08, 0x00, 0x10][i - 60] else
    [0x00, 0x18, 0x00, 0x20, 0x00, 0x28, 0x00, 0x30, 0x00, 0x80, 0x01, 0x82, 0x01, 0x86, 0x00][i - 75]
  }

  const PART4: seq<byte> := seq(90, i requires 0 <= i < 90 => Byte4(i))

  function Byte5(i: nat): byte
    requires i < 79
  {
    if i < 15 then [0xf6, 0xcf, 0xfe, 0x3f, 0xab, 0x00, 0xb0, 0x00, 0xb1, 0x00, 0xb3, 0x00, 0xba, 0xf8, 0xbb][i] else
    if i < 30 then [0x00, 0xc0, 0x00, 0xc1, 0x00, 0xc7, 0xbf, 0x62, 0xff, 0x00, 0x8d, 0xff, 0x00, 0xc4, 0xff][i - 15] else
    if i < 45 then [0x00, 0xc5, 0xff, 0x00, 0xff, 0xff, 0xeb, 0x01, 0xff, 0x0e, 0x12, 0x08, 0x00, 0x13, 0x09][i - 30] else
    if i < 60 then [0x00, 0x16, 0x08, 0x00, 0x17, 0x09, 0x00, 0x2b, 0x09, 0x00, 0xae, 0xff, 0x07, 0xb2, 0xff][i - 45] else
    if i < 75 then [0x00, 0xb4, 0xff, 0x00, 0xb5, 0xff, 0x00, 0xc3, 0x01, 0x00, 0xc7, 0xff, 0xbf, 0xe7, 0x08][i - 60] else
    [0x00, 0xf0, 0x02, 0x00][i - 75]
  }

  const PART5: seq<byte> := seq(79, i requires 0 <= i < 79 => Byte5(i))

  const HDE64_TABLE: seq<byte> := PART0 + PART1 + PART2 + PART3 + PART4 + PART5

  lemma PrefixRowsStayInside(i: nat)
    requires DELTA_PREFIXES <= i < DELTA_PREFIXES + 64
    ensures HDE64_TABLE[i] <= 0x6e
  {
  }

  // The one table property that the lookups need to stay inside it: the rows of the prefix table
  // are read DELTA_PREFIXES further on. The other rows are bytes read near the start.
  predicate RowsStayInside(t: seq<byte>) {
    && |t| == TABLE_SIZE
    && forall i :: DELTA_PREFIXES <= i < DELTA_PREFIXES + 64 ==> t[i] + 3 + DELTA_PREFIXES < DELTA_OP_LOCK_OK
  }

  lemma TableRowsStayInside()
    ensures RowsStayInside(HDE64_TABLE)
  {
    forall i | DELTA_PREFIXES <= i < DELTA_PREFIXES + 64
      ensures HDE64_TABLE[i] + 3 + DELTA_PREFIXES < DELTA_OP_LOCK_OK
    {
      PrefixRowsStayInside(i);
    }
  }

  type HdeTable = t: seq<byte> | RowsStayInside(t) witness (TableRowsStayInside(); HDE64_TABLE)

  const HDE64: HdeTable := (TableRowsStayInside(); HDE64_TABLE)

  // Every lookup of an opcode, through its row, of a group pair, and of an FPU form stays inside its part of the
  // table: prefix entries below the LOCK tables, FPU forms below the prefix table.
  lemma LookupsStayInside(t: HdeTable, base: nat, op: byte, f: byte, reg: nat)
    requires base in {0, DELTA_OPCODES, DELTA_PREFIXES} && reg < 8
    ensures base + t[base + op / 4] + op % 4 < if base == DELTA_PREFIXES then DELTA_OP_LOCK_OK else TABLE_SIZE
    ensures base != DELTA_PREFIXES ==> base + f % 0x80 + 1 < DELTA_FPU_REG
    ensures 0xd9 <= op <= 0xdf ==> DELTA_FPU_REG + (op - 0xd9) < DELTA_FPU_MODRM
    ensures 0xd9 <= op <= 0xdf ==> DELTA_FPU_MODRM + 8 * (op - 0xd9) + reg < DELTA_PREFIXES
  {
    var i := base + op / 4;
    assert base == DELTA_PREFIXES ==> t[i] + 3 + DELTA_PREFIXES < DELTA_OP_LOCK_OK;
  }
}
