/** What the record of an instruction says, in terms of its bytes and of the table alone. */
module FormLaws {
  import opened Bytes
  import opened Table64
  import opened Hde64
  import opened DecoderLaws

  // ---------------------------------------------------------------- prefixes

  const SEGMENTS: set<byte> := {0x26, 0x2e, 0x36, 0x3e, 0x64, 0x65}
  const PREFIXES: set<byte> := {0xf0, 0xf2, 0xf3, 0x66, 0x67} + SEGMENTS

  // The bytes at a that are prefixes, of which a sixteenth is the last one looked at.
  function PrefixRun(m: seq<byte>, a: nat): nat {
    ScanPrefixes(m, a, Scan(0, CLEARED, NO_PREFIX)).count
  }

  ghost predicate Among(m: seq<byte>, a: nat, n: nat, c: byte) {
    exists i :: 0 <= i < n && Nth(m, a, i) == c
  }

  ghost predicate LastAt(m: seq<byte>, a: nat, n: nat, kinds: set<byte>, i: nat) {
    i < n && Nth(m, a, i) in kinds && forall j :: i < j < n ==> Nth(m, a, j) !in kinds
  }

  // v is the last of the first n bytes that is one of these kinds, or zero if none is.
  ghost predicate IsLast(m: seq<byte>, a: nat, n: nat, kinds: set<byte>, v: byte) {
    if v == 0 then forall i :: 0 <= i < n ==> Nth(m, a, i) !in kinds
    else exists i :: LastAt(m, a, n, kinds, i) && Nth(m, a, i) == v
  }

  lemma IsLastNext(m: seq<byte>, a: nat, n: nat, kinds: set<byte>, v: byte)
    requires IsLast(m, a, n, kinds, v) && 0 !in kinds
    ensures IsLast(m, a, n + 1, kinds, if Nth(m, a, n) in kinds then Nth(m, a, n) else v)
  {
    if Nth(m, a, n) in kinds {
      assert LastAt(m, a, n + 1, kinds, n);
    } else if v != 0 {
      var i :| LastAt(m, a, n, kinds, i) && Nth(m, a, i) == v;
      assert LastAt(m, a, n + 1, kinds, i);
    }
  }

  lemma AmongNext(m: seq<byte>, a: nat, n: nat, c: byte)
    ensures Among(m, a, n + 1, c) <==> Among(m, a, n, c) || Nth(m, a, n) == c
  {
  }

  // The prefix fields of a record after n prefix bytes.
  ghost predicate FieldsShow(m: seq<byte>, a: nat, n: nat, hs: Hde) {
    && IsLast(m, a, n, {0xf2, 0xf3}, hs.p_rep)
    && IsLast(m, a, n, {0xf0}, hs.p_lock)
    && IsLast(m, a, n, SEGMENTS, hs.p_seg)
    && IsLast(m, a, n, {0x66}, hs.p_66)
    && IsLast(m, a, n, {0x67}, hs.p_67)
  }

  ghost predicate SegmentAmong(m: seq<byte>, a: nat, n: nat) {
    exists c :: c in SEGMENTS && Among(m, a, n, c)
  }

  ghost predicate BitIs(m: seq<byte>, a: nat, n: nat, bit: bool, c: byte) {
    bit <==> Among(m, a, n, c)
  }

  // The bits of the prefix byte after n prefix bytes.
  ghost predicate BitsShow(m: seq<byte>, a: nat, n: nat, pref: Prefix) {
    && BitIs(m, a, n, pref.f2, 0xf2) && BitIs(m, a, n, pref.f3, 0xf3) && BitIs(m, a, n, pref.p66, 0x66)
    && BitIs(m, a, n, pref.p67, 0x67) && BitIs(m, a, n, pref.lock, 0xf0) && (pref.seg <==> SegmentAmong(m, a, n))
  }

  lemma BitNext(m: seq<byte>, a: nat, n: nat, bit: bool, c: byte)
    requires BitIs(m, a, n, bit, c)
    ensures BitIs(m, a, n + 1, bit || Nth(m, a, n) == c, c)
  {
    AmongNext(m, a, n, c);
  }

  lemma PrefixSets(c: byte, s: Scan, next: Scan)
    requires IsPrefix(c) && next == AddPrefix(c, s)
    ensures next.hs.p_rep == (if c in {0xf2, 0xf3} then c else s.hs.p_rep)
    ensures next.hs.p_lock == (if c in {0xf0} then c else s.hs.p_lock)
    ensures next.hs.p_seg == (if c in SEGMENTS then c else s.hs.p_seg)
    ensures next.hs.p_66 == (if c in {0x66} then c else s.hs.p_66)
    ensures next.hs.p_67 == (if c in {0x67} then c else s.hs.p_67)
    ensures next.pref == Prefix(s.pref.none, s.pref.f2 || c == 0xf2, s.pref.f3 || c == 0xf3, s.pref.p66 || c == 0x66,
                                s.pref.p67 || c == 0x67, s.pref.lock || c == 0xf0, s.pref.seg || c in SEGMENTS)
    ensures next.count == s.count + 1
  {
  }

  lemma FieldsNext(m: seq<byte>, a: nat, s: Scan, next: Scan)
    requires FieldsShow(m, a, s.count, s.hs) && IsPrefix(Nth(m, a, s.count)) && next == AddPrefix(Nth(m, a, s.count), s)
    ensures FieldsShow(m, a, next.count, next.hs)
  {
    PrefixSets(Nth(m, a, s.count), s, next);
    IsLastNext(m, a, s.count, {0xf2, 0xf3}, s.hs.p_rep);
    IsLastNext(m, a, s.count, {0xf0}, s.hs.p_lock);
    IsLastNext(m, a, s.count, SEGMENTS, s.hs.p_seg);
    IsLastNext(m, a, s.count, {0x66}, s.hs.p_66);
    IsLastNext(m, a, s.count, {0x67}, s.hs.p_67);
  }

  lemma SegmentNext(m: seq<byte>, a: nat, n: nat)
    ensures SegmentAmong(m, a, n + 1) <==> SegmentAmong(m, a, n) || Nth(m, a, n) in SEGMENTS
  {
    var c := Nth(m, a, n);
    AmongNext(m, a, n, c);
    forall b | b in SEGMENTS ensures Among(m, a, n + 1, b) <==> Among(m, a, n, b) || c == b {
      AmongNext(m, a, n, b);
    }
    if c in SEGMENTS {
      assert Among(m, a, n + 1, c);
    }
  }

  lemma BitsNext(m: seq<byte>, a: nat, n: nat, pref: Prefix, next: Prefix)
    requires BitsShow(m, a, n, pref)
    requires var c := Nth(m, a, n);
             next == Prefix(pref.none, pref.f2 || c == 0xf2, pref.f3 || c == 0xf3, pref.p66 || c == 0x66,
                            pref.p67 || c == 0x67, pref.lock || c == 0xf0, pref.seg || c in SEGMENTS)
    ensures BitsShow(m, a, n + 1, next)
  {
    BitNext(m, a, n, pref.f2, 0xf2);
    BitNext(m, a, n, pref.f3, 0xf3);
    BitNext(m, a, n, pref.p66, 0x66);
    BitNext(m, a, n, pref.p67, 0x67);
    BitNext(m, a, n, pref.lock, 0xf0);
    SegmentNext(m, a, n);
  }

  // The run ends at the first byte that is no prefix, or at sixteen.
  ghost predicate Leads(m: seq<byte>, a: nat, i: nat, n: nat) {
    && n <= 16 && (forall j :: i <= j < n ==> Nth(m, a, j) in PREFIXES)
    && (n < 16 ==> Nth(m, a, n) !in PREFIXES)
  }

  // What is known of a scan: its fields and bits are those of the bytes passed.
  ghost predicate ScanSound(m: seq<byte>, a: nat, s: Scan) {
    FieldsShow(m, a, s.count, s.hs) && BitsShow(m, a, s.count, s.pref) && !s.pref.none
  }

  lemma PrefixesAre(c: byte)
    ensures IsPrefix(c) <==> c in PREFIXES
  {
  }

  lemma ScanNext(m: seq<byte>, a: nat, s: Scan, next: Scan)
    requires ScanSound(m, a, s) && IsPrefix(Nth(m, a, s.count)) && next == AddPrefix(Nth(m, a, s.count), s)
    ensures ScanSound(m, a, next) && next.count == s.count + 1
  {
    FieldsNext(m, a, s, next);
    PrefixSets(Nth(m, a, s.count), s, next);
    BitsNext(m, a, s.count, s.pref, next.pref);
  }

  lemma LeadsNext(m: seq<byte>, a: nat, i: nat, n: nat)
    requires Nth(m, a, i) in PREFIXES && Leads(m, a, i + 1, n)
    ensures Leads(m, a, i, n)
  {
  }

  lemma {:induction false} ScanShows(m: seq<byte>, a: nat, s: Scan, r: Scan)
    requires s.count <= 16 && ScanSound(m, a, s) && r == ScanPrefixes(m, a, s)
    ensures ScanSound(m, a, r) && Leads(m, a, s.count, r.count)
    decreases 16 - s.count
  {
    var c := Nth(m, a, s.count);
    PrefixesAre(c);
    if s.count < 16 && IsPrefix(c) {
      var next := AddPrefix(c, s);
      ScanNext(m, a, s, next);
      ScanShows(m, a, next, r);
      LeadsNext(m, a, s.count, r.count);
    }
  }

  lemma RunShows(m: seq<byte>, a: nat)
    ensures var r := ScanPrefixes(m, a, Scan(0, CLEARED, NO_PREFIX)); ScanSound(m, a, r) && Leads(m, a, 0, r.count)
  {
    var none := Scan(0, CLEARED, NO_PREFIX);
    ScanShows(m, a, none, ScanPrefixes(m, a, none));
  }

  // ---------------------------------------------------------------- REX and opcode

  predicate IsRex(c: byte) {
    0x40 <= c < 0x50
  }

  predicate HasRex(m: seq<byte>, a: nat) {
    IsRex(Nth(m, a, PrefixBytes(m, a)))
  }

  // Where the opcode stands: behind the prefixes and a REX prefix.
  function OpcodeAt(m: seq<byte>, a: nat): nat {
    PrefixBytes(m, a) + if HasRex(m, a) then 1 else 0
  }

  function FirstOpcode(m: seq<byte>, a: nat): byte {
    Nth(m, a, OpcodeAt(m, a))
  }

  // A REX prefix behind a REX prefix is no opcode.
  predicate Doubled(m: seq<byte>, a: nat) {
    HasRex(m, a) && IsRex(FirstOpcode(m, a))
  }

  predicate TwoByte(m: seq<byte>, a: nat) {
    FirstOpcode(m, a) == 0x0f
  }

  function Behind(m: seq<byte>, a: nat): nat {
    OpcodeAt(m, a) + if TwoByte(m, a) then 2 else 1
  }

  function LastOpcode(m: seq<byte>, a: nat): byte {
    if TwoByte(m, a) then Nth(m, a, OpcodeAt(m, a) + 1) else FirstOpcode(m, a)
  }

  // What a table says an opcode takes, and which reg fields it lacks: its row leads to its entry, and an entry
  // with the top bit set to a pair of bytes.
  predicate Says(t: HdeTable, two: bool, op: byte, takes: byte, lacks: byte) {
    var base := if two then DELTA_OPCODES else 0;
    var entry := t[base + t[base + op / 4] + op % 4];
    if entry == 0xff then takes == (if op == 0x24 || op == 0x26 then 1 else 0) && lacks == 0
    else if entry >= 0x80 then takes == t[base + entry - 0x80] && lacks == t[base + entry - 0x7f]
    else takes == entry && lacks == 0
  }

  // The same of the opcode at a.
  predicate Takes(t: HdeTable, m: seq<byte>, a: nat, takes: byte, lacks: byte) {
    if Doubled(m, a) then takes == 0 && lacks == 0 else Says(t, TwoByte(m, a), LastOpcode(m, a), takes, lacks)
  }

  predicate IsMoffs(c: byte) {
    0xa0 <= c <= 0xa3
  }

  // REX.W on a move of an immediate to a register, and the moves with an absolute address.
  predicate Wide(m: seq<byte>, a: nat) {
    || (HasRex(m, a) && Nth(m, a, PrefixBytes(m, a)) >= 0x48 && 0xb8 <= FirstOpcode(m, a) <= 0xbf)
    || IsMoffs(FirstOpcode(m, a))
  }

  // The operand-size prefix; for the moves with an absolute address the address-size prefix.
  ghost predicate Short(m: seq<byte>, a: nat) {
    Among(m, a, PrefixRun(m, a), if IsMoffs(FirstOpcode(m, a)) then 0x67 else 0x66)
  }

  // A kind of prefix that the instruction has is among those that a byte of the table names; one kind is to have none.
  ghost predicate HasKind(m: seq<byte>, a: nat, kinds: byte) {
    var n := PrefixRun(m, a);
    || (Among(m, a, n, 0xf2) && Has(kinds, PRE_F2)) || (Among(m, a, n, 0xf3) && Has(kinds, PRE_F3))
    || (Short(m, a) && Has(kinds, PRE_66)) || (Among(m, a, n, 0x67) && Has(kinds, PRE_67))
    || (Among(m, a, n, 0xf0) && Has(kinds, PRE_LOCK)) || (SegmentAmong(m, a, n) && Has(kinds, PRE_SEG))
    || (n == 0 && Has(kinds, PRE_NONE))
  }

  // The prefixes that the table forbids for a two-byte opcode.
  ghost predicate Forbidden(t: HdeTable, m: seq<byte>, a: nat) {
    var op := LastOpcode(m, a);
    HasKind(m, a, t[DELTA_PREFIXES + t[DELTA_PREFIXES + op / 4] + op % 4])
  }

  ghost predicate BadOpcode(t: HdeTable, m: seq<byte>, a: nat) {
    var base, op := if TwoByte(m, a) then DELTA_OPCODES else 0, LastOpcode(m, a);
    || Doubled(m, a)
    || t[base + t[base + op / 4] + op % 4] == 0xff
    || (TwoByte(m, a) && op != 0 && Forbidden(t, m, a))
  }

  // A run of prefixes sets a bit unless it is empty.
  lemma NoPrefixSeen(m: seq<byte>, a: nat, s: Scan)
    requires ScanSound(m, a, s) && Leads(m, a, 0, s.count)
    ensures s.pref.Empty() <==> s.count == 0
  {
    if s.count > 0 {
      var c := Nth(m, a, 0);
      assert c in PREFIXES && Among(m, a, s.count, c);
      assert c in SEGMENTS ==> SegmentAmong(m, a, s.count);
    }
  }

  // Bit by bit, what the prefix byte is once the opcode is read.
  ghost predicate PrefixShows(m: seq<byte>, a: nat, pref: Prefix) {
    var n := PrefixRun(m, a);
    && (pref.none <==> n == 0)
    && (pref.f2 <==> Among(m, a, n, 0xf2)) && (pref.f3 <==> Among(m, a, n, 0xf3))
    && (pref.p66 <==> Short(m, a)) && (pref.p67 <==> Among(m, a, n, 0x67))
    && (pref.lock <==> Among(m, a, n, 0xf0)) && (pref.seg <==> SegmentAmong(m, a, n))
  }

  function RexFields(hs: Hde, rex: bool, c: byte): Hde {
    if rex then hs.(rex_w := c / 8 % 2, rex_r := c / 4 % 2, rex_x := c / 2 % 2, rex_b := c % 2) else hs
  }

  // What a REX prefix says, of the byte where it may stand and the one behind it.
  lemma RexOfBytes(s: Scan, q: nat, c: byte, c': byte, r: Rex)
    requires r == RexOf(s, q, c, c')
    ensures RexAt(q, c, c', s, r)
  {
    RexIs(c);
    RexIs(c');
    MovIs(c');
    if IsRex(c) {
      RexBits(c, c - 0x40);
      RexRecord(s.hs, c, s.pref.Flags());
    }
  }

  // A REX prefix at q and what follows it.
  predicate RexAt(q: nat, c: byte, c': byte, s: Scan, r: Rex) {
    && r.p == (if IsRex(c) then q + 2 else q + 1) && r.c == (if IsRex(c) then c' else c)
    && (r.doubled <==> IsRex(c) && IsRex(c')) && (r.op64 <==> IsRex(c) && c >= 0x48 && 0xb8 <= c' <= 0xbf)
    && r.hs == RexFields(s.hs, IsRex(c), c).(flags := s.pref.Flags() + if IsRex(c) then {F_PREFIX_REX} else {})
    && r.pref == if s.pref.Empty() then s.pref.(none := true) else s.pref
  }

  // The same at the place behind the prefixes.
  predicate RexStands(m: seq<byte>, a: nat, s: Scan, r: Rex) {
    RexAt(PrefixBytes(m, a), Nth(m, a, PrefixBytes(m, a)), Nth(m, a, PrefixBytes(m, a) + 1), s, r)
  }

  lemma RexIsRead(m: seq<byte>, a: nat, s: Scan, q: nat)
    requires s == ScanPrefixes(m, a, Scan(0, CLEARED, NO_PREFIX)) && q == PrefixBytes(m, a)
    ensures s.count <= 16 && ReadRex(m, a, s) == RexOf(s, q, Nth(m, a, q), Nth(m, a, q + 1))
  {
  }

  lemma RexIsAt(m: seq<byte>, a: nat, s: Scan, r: Rex)
    requires s == ScanPrefixes(m, a, Scan(0, CLEARED, NO_PREFIX)) && r == ReadRex(m, a, s)
    ensures RexStands(m, a, s, r)
  {
    var q := PrefixBytes(m, a);
    RexIsRead(m, a, s, q);
    RexOfBytes(s, q, Nth(m, a, q), Nth(m, a, q + 1), r);
  }

  lemma RexShows(m: seq<byte>, a: nat, s: Scan, r: Rex)
    requires RexStands(m, a, s, r)
    ensures r.p == OpcodeAt(m, a) + 1 && r.c == FirstOpcode(m, a) && (r.doubled <==> Doubled(m, a))
    ensures r.op64 <==> HasRex(m, a) && Nth(m, a, PrefixBytes(m, a)) >= 0x48 && 0xb8 <= FirstOpcode(m, a) <= 0xbf
    ensures r.hs == RexFields(s.hs, HasRex(m, a), Nth(m, a, PrefixBytes(m, a))).(
              flags := s.pref.Flags() + if HasRex(m, a) then {F_PREFIX_REX} else {})
    ensures r.pref == if s.pref.Empty() then s.pref.(none := true) else s.pref
  {
  }

  lemma RexIs(c: byte)
    ensures IsRex(c) <==> c / 16 == 4
  {
  }

  lemma MovIs(c: byte)
    ensures c / 8 == 0x17 <==> 0xb8 <= c <= 0xbf
  {
  }

  lemma RexBits(c: byte, low: nat)
    requires IsRex(c) && c == 0x40 + low
    ensures c % 16 / 8 == c / 8 % 2 && c % 8 / 4 == c / 4 % 2 && c % 4 / 2 == c / 2 % 2
    ensures c % 16 / 8 != 0 <==> c >= 0x48
  {
    var w, r, x, b := low / 8, low / 4 % 2, low / 2 % 2, low % 2;
    assert low == 8 * w + 4 * r + 2 * x + b && w < 2;
    RexParts(c, w, r, x, b);
  }

  lemma RexParts(c: nat, w: nat, r: nat, x: nat, b: nat)
    requires c == 0x40 + 8 * w + 4 * r + 2 * x + b && w < 2 && r < 2 && x < 2 && b < 2
    ensures c % 16 / 8 == c / 8 % 2 == w && c % 8 / 4 == c / 4 % 2 == r && c % 4 / 2 == c / 2 % 2 == x
  {
    assert c / 8 == 8 + w && c % 16 == 8 * w + 4 * r + 2 * x + b;
    assert c / 4 == 16 + 2 * w + r && c % 8 == 4 * r + 2 * x + b;
    assert c / 2 == 32 + 4 * w + 2 * r + x && c % 4 == 2 * x + b;
  }

  lemma RexRecord(hs: Hde, c: byte, flags: set<Flag>)
    requires c % 16 / 8 == c / 8 % 2 && c % 8 / 4 == c / 4 % 2 && c % 4 / 2 == c / 2 % 2
    ensures hs.(flags := flags).(flags := flags + {F_PREFIX_REX}, rex_w := c % 16 / 8, rex_r := c % 8 / 4,
                                 rex_x := c % 4 / 2, rex_b := c % 2)
         == RexFields(hs, true, c).(flags := flags + {F_PREFIX_REX})
  {
  }

  // What is known once the opcode is read, the record apart.
  ghost predicate OpcodeKnown(t: HdeTable, m: seq<byte>, a: nat, o: Op) {
    && o.p == Behind(m, a) && o.opcode == LastOpcode(m, a) && Takes(t, m, a, o.cflags, o.mask)
    && (o.op64 <==> !Doubled(m, a) && Wide(m, a))
    && PrefixShows(m, a, o.pref)
  }

  // The record once the opcode is read.
  ghost function OpcodeRecord(t: HdeTable, m: seq<byte>, a: nat, s: Scan): Hde {
    RexFields(s.hs, HasRex(m, a), Nth(m, a, PrefixBytes(m, a))).(
    opcode := if Doubled(m, a) then 0 else FirstOpcode(m, a),
    opcode2 := if TwoByte(m, a) then LastOpcode(m, a) else 0,
    flags := s.pref.Flags() + (if HasRex(m, a) then {F_PREFIX_REX} else {})
             + if BadOpcode(t, m, a) then BAD_OPCODE else {})
  }

  // Prefixes fill the prefix fields alone.
  lemma {:induction false} ScanKeeps(m: seq<byte>, a: nat, s: Scan)
    requires s.count <= 16
    ensures var r := ScanPrefixes(m, a, s).hs;
            r == s.hs.(p_rep := r.p_rep, p_lock := r.p_lock, p_seg := r.p_seg, p_66 := r.p_66, p_67 := r.p_67)
    decreases 16 - s.count
  {
    var c := Nth(m, a, s.count);
    if s.count < 16 && IsPrefix(c) {
      ScanKeeps(m, a, AddPrefix(c, s));
    }
  }

  lemma ClassifySays(t: HdeTable, two: bool, op: byte, o: Op, r: Op)
    requires var base := if two then DELTA_OPCODES else 0; r == Classify(t, base, op, o)
    ensures Says(t, two, op, r.cflags, r.mask)
    ensures r == o.(cflags := r.cflags, mask := r.mask, hs := r.hs) && r.hs == o.hs.(flags := r.hs.flags)
    ensures var base := if two then DELTA_OPCODES else 0;
            r.hs.flags == o.hs.flags +
              if t[base + t[base + op / 4] + op % 4] == 0xff
                 || (o.hs.opcode2 != 0 && o.pref.Meets(t[DELTA_PREFIXES + t[DELTA_PREFIXES + op / 4] + op % 4]))
              then BAD_OPCODE else {}
  {
  }

  lemma PrefixIsShown(m: seq<byte>, a: nat, s: Scan)
    requires ScanSound(m, a, s) && s.count == PrefixRun(m, a) && Leads(m, a, 0, s.count)
    ensures var pref := if s.pref.Empty() then s.pref.(none := true) else s.pref;
            PrefixShows(m, a, if IsMoffs(FirstOpcode(m, a)) then pref.(p66 := pref.p67) else pref)
  {
    NoPrefixSeen(m, a, s);
  }

  lemma MeetsIsKind(m: seq<byte>, a: nat, pref: Prefix, kinds: byte)
    requires PrefixShows(m, a, pref)
    ensures pref.Meets(kinds) <==> HasKind(m, a, kinds)
  {
  }

  lemma ClassifyKnown(t: HdeTable, m: seq<byte>, a: nat, o: Op, r: Op)
    requires !Doubled(m, a) && o.p == Behind(m, a) && o.opcode == LastOpcode(m, a) && (o.op64 <==> Wide(m, a))
    requires PrefixShows(m, a, o.pref) && o.hs.opcode2 == if TwoByte(m, a) then LastOpcode(m, a) else 0
    requires r == Classify(t, if TwoByte(m, a) then DELTA_OPCODES else 0, LastOpcode(m, a), o)
    ensures OpcodeKnown(t, m, a, r)
    ensures r.hs == o.hs.(flags := o.hs.flags + if BadOpcode(t, m, a) then BAD_OPCODE else {})
  {
    ClassifySays(t, TwoByte(m, a), LastOpcode(m, a), o, r);
    if TwoByte(m, a) {
      var op := LastOpcode(m, a);
      MeetsIsKind(m, a, o.pref, t[DELTA_PREFIXES + t[DELTA_PREFIXES + op / 4] + op % 4]);
    }
  }

  lemma AfterRexKnown(t: HdeTable, m: seq<byte>, a: nat, r: Rex, o: Op)
    requires !Doubled(m, a) && r.p == OpcodeAt(m, a) + 1 && r.c == FirstOpcode(m, a) && r.hs.opcode2 == 0
    requires IsMoffs(r.c) || (r.op64 <==> Wide(m, a))
    requires PrefixShows(m, a, if IsMoffs(FirstOpcode(m, a)) then r.pref.(p66 := r.pref.p67) else r.pref)
    requires o == AfterRex(t, m, a, r)
    ensures OpcodeKnown(t, m, a, o)
    ensures o.hs == r.hs.(opcode := r.c, opcode2 := if TwoByte(m, a) then LastOpcode(m, a) else 0,
                          flags := r.hs.flags + if BadOpcode(t, m, a) then BAD_OPCODE else {})
  {
    var c, hs := r.c, r.hs.(opcode := r.c);
    if c == 0x0f {
      var c2 := Nth(m, a, r.p);
      ClassifyKnown(t, m, a, Op(r.p + 1, hs.(opcode2 := c2), r.pref, r.op64, c2, 0, 0), o);
    } else if IsMoffs(c) {
      ClassifyKnown(t, m, a, Op(r.p, hs, r.pref.(p66 := r.pref.p67), true, c, 0, 0), o);
    } else {
      ClassifyKnown(t, m, a, Op(r.p, hs, r.pref, r.op64, c, 0, 0), o);
    }
  }

  lemma OpcodeIsKnown(t: HdeTable, m: seq<byte>, a: nat, s: Scan, o: Op)
    requires s == ScanPrefixes(m, a, Scan(0, CLEARED, NO_PREFIX)) && o == ReadOpcode(t, m, a, s)
    ensures OpcodeKnown(t, m, a, o) && o.hs == OpcodeRecord(t, m, a, s)
  {
    var r := ReadRex(m, a, s);
    RunShows(m, a);
    PrefixIsShown(m, a, s);
    RexIsAt(m, a, s, r);
    RexShows(m, a, s, r);
    ScanKeeps(m, a, Scan(0, CLEARED, NO_PREFIX));
    if !r.doubled {
      AfterRexKnown(t, m, a, r, o);
    }
  }

  // ---------------------------------------------------------------- operands

  // The mode of an operand byte: moves of control and debug registers have registers for operands.
  function Mode(hs: Hde): nat {
    if hs.opcode == 0x0f && 0x20 <= hs.opcode2 <= 0x23 then 3 else hs.modrm_mod
  }

  // The operand byte stands at p, if there is one.
  predicate ModRmShown(m: seq<byte>, a: nat, p: nat, hs: Hde) {
    if F_MODRM in hs.flags then
      && hs.modrm == Nth(m, a, p)
      && hs.modrm_mod == hs.modrm / 64 && hs.modrm_reg == hs.modrm / 8 % 8 && hs.modrm_rm == hs.modrm % 8
    else hs.modrm == hs.modrm_mod == hs.modrm_reg == hs.modrm_rm == 0
  }

  // A SIB byte follows it for a memory operand with rm 4.
  predicate SibShown(m: seq<byte>, a: nat, p: nat, hs: Hde) {
    && (F_SIB in hs.flags <==> F_MODRM in hs.flags && Mode(hs) != 3 && hs.modrm_rm == 4)
    && if F_SIB in hs.flags then
         && hs.sib == Nth(m, a, p + 1)
         && hs.sib_scale == hs.sib / 64 && hs.sib_index == hs.sib / 8 % 8 && hs.sib_base == hs.sib % 8
       else hs.sib == hs.sib_scale == hs.sib_index == hs.sib_base == 0
  }

  // A SIB byte without a base register, in a mode without an 8-bit displacement.
  predicate NoBase(hs: Hde) {
    F_SIB in hs.flags && hs.sib_base == 5 && Mode(hs) != 1
  }

  // A displacement follows that: 8 bits in mode 1; 32 bits in mode 2, for rm 5 in mode 0, and without a base
  // register; with short addresses 16 bits in mode 2 and for rm 6 in mode 0.
  predicate DispShown(m: seq<byte>, a: nat, p: nat, short: bool, hs: Hde) {
    var d := p + if F_SIB in hs.flags then 2 else 1;
    if F_MODRM in hs.flags then
      && (F_DISP8 in hs.flags <==> Mode(hs) == 1)
      && (F_DISP16 in hs.flags <==>
            short && !NoBase(hs) && (Mode(hs) == 2 || (Mode(hs) == 0 && hs.modrm_rm == 6)))
      && (F_DISP32 in hs.flags <==>
            NoBase(hs) || (!short && (Mode(hs) == 2 || (Mode(hs) == 0 && hs.modrm_rm == 5))))
      && hs.disp == if F_DISP8 in hs.flags then Nth(m, a, d)
                    else if F_DISP16 in hs.flags then Nth(m, a, d) + 0x100 * Nth(m, a, d + 1)
                    else if F_DISP32 in hs.flags then Le(m, a, d, 4)
                    else 0
    else F_DISP8 !in hs.flags && F_DISP16 !in hs.flags && F_DISP32 !in hs.flags && hs.disp == 0
  }

  // Before its operands are read, a record holds none.
  predicate NoOperandFields(hs: Hde) {
    && hs.modrm == hs.modrm_mod == hs.modrm_reg == hs.modrm_rm == 0
    && hs.sib == hs.sib_scale == hs.sib_index == hs.sib_base == 0
    && hs.disp == 0 && hs.imm == 0 && NoOperands(hs.flags) && NoImm(hs.flags) && F_RELATIVE !in hs.flags
    && F_ERROR_LOCK !in hs.flags && F_ERROR_OPERAND !in hs.flags
  }

  // The last opcode byte, as the record shows it.
  predicate OpcodeOf(o: Op) {
    && (o.hs.opcode == 0x0f ==> o.opcode == o.hs.opcode2)
    && (o.hs.opcode != 0x0f ==> o.hs.opcode2 == 0 && (o.hs.opcode == 0 || o.opcode == o.hs.opcode))
  }

  lemma ModeIs(o: Op)
    requires OpcodeOf(o)
    ensures EffectiveMod(o, o.hs.modrm_mod) == Mode(o.hs)
  {
  }

  lemma LowSixBits(c: nat, q: nat, s: nat)
    requires c == 64 * q + s && s < 64
    ensures c % 64 == s
  {
  }

  lemma MiddleBits(c: byte)
    ensures c % 64 / 8 == c / 8 % 8
  {
    var h, low := c / 8, c % 8;
    var q, r := h / 8, h % 8;
    assert c == 8 * h + low && h == 8 * q + r;
    LowSixBits(c, q, 8 * r + low);
    assert (8 * r + low) / 8 == r;
  }

  // What is known once the operand byte is read.
  lemma FormShows(t: HdeTable, m: seq<byte>, a: nat, o: Op, f: Form)
    requires NoOperandFields(o.hs) && OpcodeOf(o) && f == AddModRm(t, o, Nth(m, a, o.p))
    ensures F_MODRM in f.o.hs.flags && ModRmShown(m, a, o.p, f.o.hs) && f.mod == Mode(f.o.hs) && f.o.p == o.p + 1
    ensures f.size == DispSize(f.mod, f.o.hs.modrm_rm, o.pref.p67) && f.o.pref == o.pref
    ensures NoOperands(f.o.hs.flags - {F_MODRM}) && f.o.hs.disp == 0
    ensures f.o.hs.sib == f.o.hs.sib_scale == f.o.hs.sib_index == f.o.hs.sib_base == 0
  {
    var c := Nth(m, a, o.p);
    ErrorsAnnounceNothing(t, o, c / 64, c % 64 / 8, c % 8);
    MiddleBits(c);
    ModeIs(f.o);
  }

  // And once a SIB byte is read behind it.
  lemma SibShows(m: seq<byte>, a: nat, p: nat, f: Form, g: Form)
    requires F_MODRM in f.o.hs.flags && ModRmShown(m, a, p, f.o.hs) && f.mod == Mode(f.o.hs) && f.o.p == p + 1
    requires NoOperands(f.o.hs.flags - {F_MODRM}) && f.o.hs.disp == 0
    requires f.o.hs.sib == f.o.hs.sib_scale == f.o.hs.sib_index == f.o.hs.sib_base == 0
    requires g == if f.NeedsSib() then f.AddSib(Nth(m, a, f.o.p)) else f
    ensures ModRmShown(m, a, p, g.o.hs) && SibShown(m, a, p, g.o.hs) && g.mod == Mode(g.o.hs)
    ensures g.o.p == p + (if F_SIB in g.o.hs.flags then 2 else 1) && F_MODRM in g.o.hs.flags
    ensures NoOperands(g.o.hs.flags - {F_MODRM, F_SIB}) && g.o.hs.disp == 0 && g.o.pref == f.o.pref
    ensures g.size == if NoBase(g.o.hs) then 4 else f.size
  {
    if f.NeedsSib() {
      MiddleBits(Nth(m, a, f.o.p));
    }
  }

  lemma ShortLe(m: seq<byte>, a: nat, d: nat)
    ensures Le(m, a, d, 0) == 0 && Le(m, a, d, 1) == Nth(m, a, d)
    ensures Le(m, a, d, 2) == Nth(m, a, d) + 0x100 * Nth(m, a, d + 1)
  {
    assert Le(m, a, d + 1, 1) == Nth(m, a, d + 1) + 0x100 * Le(m, a, d + 2, 0);
    assert Le(m, a, d, 1) == Nth(m, a, d) + 0x100 * Le(m, a, d + 1, 0);
    assert Le(m, a, d, 2) == Nth(m, a, d) + 0x100 * Le(m, a, d + 1, 1);
  }

  // And once the displacement is read behind those.
  lemma DispShows(m: seq<byte>, a: nat, p: nat, g: Form, r: Op)
    requires F_MODRM in g.o.hs.flags && ModRmShown(m, a, p, g.o.hs) && SibShown(m, a, p, g.o.hs) && g.mod == Mode(g.o.hs)
    requires g.o.p == p + (if F_SIB in g.o.hs.flags then 2 else 1)
    requires NoOperands(g.o.hs.flags - {F_MODRM, F_SIB}) && g.o.hs.disp == 0
    requires g.size == if NoBase(g.o.hs) then 4 else DispSize(g.mod, g.o.hs.modrm_rm, g.o.pref.p67)
    requires r == ReadDisp(m, a, g)
    ensures ModRmShown(m, a, p, r.hs) && SibShown(m, a, p, r.hs) && DispShown(m, a, p, g.o.pref.p67, r.hs)
  {
    ShortLe(m, a, g.o.p);
  }

  predicate OperandsShown(m: seq<byte>, a: nat, p: nat, short: bool, hs: Hde) {
    ModRmShown(m, a, p, hs) && SibShown(m, a, p, hs) && DispShown(m, a, p, short, hs)
  }

  lemma OperandsShow(t: HdeTable, m: seq<byte>, a: nat, o: Op, r: Op)
    requires NoOperandFields(o.hs) && OpcodeOf(o) && r == Operands(t, m, a, o)
    ensures OperandsShown(m, a, o.p, o.pref.p67, r.hs)
    ensures F_MODRM in r.hs.flags <==> Has(o.cflags, C_MODRM)
  {
    if Has(o.cflags, C_MODRM) {
      var f := AddModRm(t, o, Nth(m, a, o.p));
      var g := if f.NeedsSib() then f.AddSib(Nth(m, a, f.o.p)) else f;
      FormShows(t, m, a, o, f);
      SibShows(m, a, o.p, f, g);
      DispShows(m, a, o.p, g, r);
    }
  }

  // ---------------------------------------------------------------- immediates

  // What follows the operands: the bits of the opcode's entry.
  datatype Follows = Follows(imm8: bool, imm16: bool, immP66: bool, rel8: bool, rel32: bool)

  function FollowsOf(takes: byte): Follows {
    Follows(Has(takes, C_IMM8), Has(takes, C_IMM16), Has(takes, C_IMM_P66), Has(takes, C_REL8), Has(takes, C_REL32))
  }

  // Two members of the groups f6 and f7 take an immediate besides.
  function WithGroup(w: Follows, op: byte, hs: Hde): Follows {
    var first := F_MODRM in hs.flags && hs.modrm_reg <= 1;
    w.(imm8 := w.imm8 || (first && op == 0xf6), immP66 := w.immP66 || (first && op == 0xf7))
  }

  // The operand-sized immediate has 64 bits with wide, else 16 with short, else 32; as a branch it has 16 or 32
  // and nothing else follows.
  predicate ImmShown(w: Follows, wide: bool, short: bool, flags: set<Flag>) {
    && (F_RELATIVE in flags <==> w.rel8 || w.rel32)
    && (F_IMM64 in flags <==> w.immP66 && !w.rel32 && wide)
    && (F_IMM32 in flags <==> if w.rel32 then !(w.immP66 && short) else w.immP66 && !wide && !short)
    && (F_IMM16 in flags <==>
          if w.rel32 && w.immP66 then short else w.imm16 || (w.immP66 && !wide && short))
    && (F_IMM8 in flags <==> !(w.rel32 && w.immP66) && (w.imm8 || (w.rel8 && !w.rel32)))
  }

  // One immediate is the little-endian number at e; of a word and a byte behind it the byte is stored over the word.
  predicate ImmValue(m: seq<byte>, a: nat, e: nat, flags: set<Flag>, imm: nat) {
    var i8, i16, i32, i64 := F_IMM8 in flags, F_IMM16 in flags, F_IMM32 in flags, F_IMM64 in flags;
    && (!i8 && !i16 && !i32 && !i64 ==> imm == 0)
    && (i8 && !i16 && !i32 && !i64 ==> imm == Nth(m, a, e))
    && (!i8 && i16 && !i32 && !i64 ==> imm == Le(m, a, e, 2))
    && (!i8 && !i16 && i32 && !i64 ==> imm == Le(m, a, e, 4))
    && (!i8 && !i16 && !i32 && i64 ==> imm == Le(m, a, e, 8))
    && (i8 && i16 && !i32 && !i64 ==> imm == Nth(m, a, e + 2) + 0x100 * Nth(m, a, e + 1))
  }

  lemma OverlayZero(v: nat, size: nat)
    ensures Overlay(0, v, size) == v
  {
  }

  lemma OverlayByte(lo: nat, hi: nat, v: nat)
    requires lo < 0x100
    ensures Overlay(lo + 0x100 * hi, v, 1) == v + 0x100 * hi
  {
  }

  lemma InOrderShows(m: seq<byte>, a: nat, wide: nat, word: nat, small: nat, relative: nat, o: Op, r: Op)
    requires NoImm(o.hs.flags) && F_RELATIVE !in o.hs.flags
    requires wide in {0, 4, 8} && word in {0, 2} && small in {0, 1} && relative in {0, 1, 4}
    requires r == ReadInOrder(m, a, wide, word, small, relative, o)
    ensures F_RELATIVE in r.hs.flags <==> relative > 0
    ensures F_IMM64 in r.hs.flags <==> wide == 8
    ensures F_IMM32 in r.hs.flags <==> wide == 4 || relative == 4
    ensures F_IMM16 in r.hs.flags <==> word == 2
    ensures F_IMM8 in r.hs.flags <==> small == 1 || relative == 1
    ensures r.hs.flags >= o.hs.flags && r.hs.(flags := {}, imm := 0) == o.hs.(flags := {}, imm := 0)
    ensures forall f :: f in r.hs.flags - o.hs.flags ==> f in {F_IMM8, F_IMM16, F_IMM32, F_IMM64, F_RELATIVE}
  {
  }

  lemma InOrderValue(m: seq<byte>, a: nat, wide: nat, word: nat, small: nat, relative: nat, o: Op, r: Op)
    requires NoImm(o.hs.flags) && F_RELATIVE !in o.hs.flags && o.hs.imm == 0
    requires wide in {0, 4, 8} && word in {0, 2} && small in {0, 1} && relative in {0, 1, 4}
    requires !(small == 1 && relative == 1) && !(wide == 4 && relative == 4)
    requires r == ReadInOrder(m, a, wide, word, small, relative, o)
    ensures ImmValue(m, a, o.p, r.hs.flags, r.hs.imm)
  {
    InOrderShows(m, a, wide, word, small, relative, o, r);
    ShortLe(m, a, o.p);
    ShortLe(m, a, o.p + 2);
    OverlayZero(Le(m, a, o.p, wide), wide);
    OverlayZero(Le(m, a, o.p, word), word);
    OverlayZero(Le(m, a, o.p, small), small);
    OverlayZero(Le(m, a, o.p, relative), relative);
    OverlayByte(Nth(m, a, o.p), Nth(m, a, o.p + 1), Nth(m, a, o.p + 2));
  }

  lemma ImmediatesShow(m: seq<byte>, a: nat, o: Op, r: Op)
    requires NoImm(o.hs.flags) && F_RELATIVE !in o.hs.flags && r == ReadImmediates(m, a, o)
    ensures ImmShown(FollowsOf(o.cflags), o.op64, o.pref.p66, r.hs.flags)
    ensures r.hs.flags >= o.hs.flags && r.hs.(flags := {}, imm := 0) == o.hs.(flags := {}, imm := 0)
    ensures forall f :: f in r.hs.flags - o.hs.flags ==> f in {F_IMM8, F_IMM16, F_IMM32, F_IMM64, F_RELATIVE}
  {
    if Has(o.cflags, C_IMM_P66) && Has(o.cflags, C_REL32) {
      assert r == ReadImm(m, a, if o.pref.p66 then 2 else 4, {F_RELATIVE}, o);
    } else {
      InOrderShows(m, a, WideSize(o), WordSize(o), ByteSize(o), RelativeSize(o), o, r);
    }
  }

  lemma ImmediatesRead(m: seq<byte>, a: nat, o: Op, r: Op)
    requires NoImm(o.hs.flags) && F_RELATIVE !in o.hs.flags && r == ReadImmediates(m, a, o) && o.hs.imm == 0
    requires !(Has(o.cflags, C_IMM8) && Has(o.cflags, C_REL8))
    ensures ImmValue(m, a, o.p, r.hs.flags, r.hs.imm)
  {
    if Has(o.cflags, C_IMM_P66) && Has(o.cflags, C_REL32) {
      var size := if o.pref.p66 then 2 else 4;
      assert r == ReadImm(m, a, size, {F_RELATIVE}, o);
      OverlayZero(Le(m, a, o.p, size), size);
    } else {
      InOrderValue(m, a, WideSize(o), WordSize(o), ByteSize(o), RelativeSize(o), o, r);
    }
  }

  lemma WithImm8Sets(v: byte)
    ensures FollowsOf(With(v, C_IMM8)) == FollowsOf(v).(imm8 := true)
  {
    var w := With(v, C_IMM8);
    assert w / 4 == v / 4 && w / 2 % 2 == 1;
    assert w / 16 == w / 4 / 4 && w / 32 == w / 4 / 8 && w / 64 == w / 4 / 16;
    assert v / 16 == v / 4 / 4 && v / 32 == v / 4 / 8 && v / 64 == v / 4 / 16;
  }

  lemma HalfIs(x: nat, q: nat, r: nat)
    requires x == 2 * q + r && r < 2
    ensures x / 2 == q
  {
  }

  lemma QuarterIs(x: nat, q: nat, r: nat)
    requires x == 4 * q + r && r < 4
    ensures x / 4 == q
  {
  }

  lemma SecondBit(v: nat, q: nat, r: nat)
    requires v == 16 * q + r && r < 16
    ensures v / 2 % 2 == r / 2 % 2
  {
    HalfIs(v, 8 * q + r / 2, r % 2);
  }

  lemma ThirdBit(v: nat, q: nat, r: nat)
    requires v == 16 * q + r && r < 16
    ensures v / 4 % 2 == r / 4 % 2
  {
    var x := r / 4;
    assert v == 4 * (4 * q + x) + r % 4;
    QuarterIs(v, 4 * q + x, r % 4);
    ParityIs(2 * q, x);
  }

  lemma ParityIs(e: nat, x: nat)
    ensures (2 * e + x) % 2 == x % 2
  {
  }

  lemma LowBits(v: byte)
    ensures v / 2 % 2 == v % 16 / 2 % 2 && v / 4 % 2 == v % 16 / 4 % 2
  {
    SecondBit(v, v / 16, v % 16);
    ThirdBit(v, v / 16, v % 16);
  }

  lemma SetBit4(q: nat, r: nat, w: nat)
    requires r < 16 && w == 32 * q + 16 + r
    ensures w / 32 == q && w % 16 == r && w / 16 % 2 == 1 && w / 64 == q / 2
  {
  }

  lemma WithImmP66Sets(v: byte)
    ensures FollowsOf(With(v, C_IMM_P66)) == FollowsOf(v).(immP66 := true)
  {
    var w := With(v, C_IMM_P66);
    LowBits(v);
    LowBits(w);
    if !Has(v, C_IMM_P66) {
      SetBit4(v / 32, v % 16, w);
      assert v / 64 == v / 32 / 2;
    }
  }

  // The fields of a record in front of its operands.
  function Head(hs: Hde): Hde {
    hs.(modrm := 0, modrm_mod := 0, modrm_reg := 0, modrm_rm := 0,
    sib := 0, sib_scale := 0, sib_index := 0, sib_base := 0, disp := 0, imm := 0, flags := {})
  }

  // The operand flags and errors of an instruction.
  const OF_OPERANDS: set<Flag> :=
    {F_MODRM, F_SIB, F_DISP8, F_DISP16, F_DISP32, F_ERROR, F_ERROR_OPCODE, F_ERROR_LOCK, F_ERROR_OPERAND}

  // Reading the operands touches nothing else.
  lemma OperandsKeep(t: HdeTable, m: seq<byte>, a: nat, o: Op, r: Op)
    requires NoOperandFields(o.hs) && r == Operands(t, m, a, o)
    ensures r.op64 == o.op64 && r.pref == o.pref && r.opcode == o.opcode
    ensures Head(r.hs) == Head(o.hs) && r.hs.imm == o.hs.imm
    ensures r.hs.flags >= o.hs.flags && forall f :: f in r.hs.flags - o.hs.flags ==> f in OF_OPERANDS
  {
    if Has(o.cflags, C_MODRM) {
      var c := Nth(m, a, o.p);
      ErrorsAnnounceNothing(t, o, c / 64, c % 64 / 8, c % 8);
    }
  }

  lemma OperandsFollow(t: HdeTable, m: seq<byte>, a: nat, o: Op, r: Op)
    requires NoOperandFields(o.hs) && r == Operands(t, m, a, o)
    ensures FollowsOf(r.cflags) == WithGroup(FollowsOf(o.cflags), o.opcode, r.hs)
  {
    WithImm8Sets(o.cflags);
    WithImmP66Sets(o.cflags);
    if Has(o.cflags, C_MODRM) {
      var f := AddModRm(t, o, Nth(m, a, o.p));
      assert r.cflags == f.o.cflags && r.hs.modrm_reg == f.o.hs.modrm_reg && F_MODRM in r.hs.flags;
    }
  }
}
