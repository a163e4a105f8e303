/** Expansions of the shifts and of byte and halfword accesses (abstract-machine/tools/minirv/inst-replace.h). */
module MiniRvShift {
  import opened Arithmetic
  import opened Bits
  import opened MiniRvTables
  import opened MiniRvMachine
  import opened MiniRvArith

  // ----- slli -----

  /** sh to bytes 2 and 3 of slot n. */
  method ShSlot(m: Machine, rs: nat, n: nat)
    requires m.Valid() && rs < 32 && (n == VAR_A || n == VAR_B)
    modifies m`regs, m`mem
    ensures m.Valid() && m.regs == old(m.regs)[TP := m.regs[TP]]
    ensures var q := Bytes(old(m.regs[rs]));
            var w := old(m.mem.slots[n]).(b2 := q.b0, b3 := q.b1);
            m.mem == old(m.mem).(slots := old(m.mem.slots)[n := w][VAR_C := q])
  {
    hide Bytes;
    BytesDigits(m.regs[rs]);
    m.SbSlot(rs, n, 2);
    GetByte(m, TP, rs, 1);
    m.SbSlot(TP, n, 3);
  }

  /** Multiplying by 2^k and shifting by r more. */
  lemma ShiftLeftAdds(x: Word, v: Word, c: nat, k: nat, r: nat)
    requires c == Pow2(k) && v == (c * x) % W
    ensures ShiftLeft(v, r) == ShiftLeft(x, k + r)
  {
    Pow2Add(r, k);
    MulAssoc(Pow2(r), Pow2(k), x);
    MulMod(W, Pow2(r), c * x);
  }

  lemma ShiftLeftZero(x: Word)
    ensures ShiftLeft(x, 0) == x
  {
    assert Pow2(0) == 1;
  }

  /** Moving the low byte to the top is a left shift by 24. */
  lemma ByteToTop(x: Word, v: Word, r: nat)
    requires v == Join(Quad(0, 0, 0, LowByte(x)))
    ensures ShiftLeft(v, r) == ShiftLeft(x, 24 + r)
  {
    WordPower();
    ByteMoved(x, v);
    ShiftLeftAdds(x, v, 0x100_0000, 24, r);
  }

  lemma ByteMoved(x: Word, v: Word)
    requires v == 0x100_0000 * (x % 256)
    ensures v == (0x100_0000 * x) % W
  {
    ScaleMod24(x);
  }

  /** Moving the low halfword to the top is a left shift by 16. */
  lemma HalfToTop(x: Word, v: Word, r: nat)
    requires v == Join(Quad(0, 0, Bytes(x).b0, Bytes(x).b1))
    ensures ShiftLeft(v, r) == ShiftLeft(x, 16 + r)
  {
    WordPower();
    LowHalf(x);
    HalfMoved(x, v, Bytes(x).b0, Bytes(x).b1);
    ShiftLeftAdds(x, v, 0x1_0000, 16, r);
  }

  lemma LowHalf(x: Word)
    ensures Bytes(x).b0 + 256 * Bytes(x).b1 == x % 0x1_0000
  {
    hide Bytes;
    BytesDigits(x);
    HalfDigits(x);
  }

  lemma HalfDigits(x: Word)
    ensures x % 256 + 256 * (x / 256 % 256) == x % 0x1_0000
  {
    var y := x / 256;
    assert x == 0x1_0000 * (y / 256) + (256 * (y % 256) + x % 256);
  }

  lemma HalfMoved(x: Word, v: Word, a: Byte, b: Byte)
    requires a + 256 * b == x % 0x1_0000 && v == 0x1_0000 * a + 0x100_0000 * b
    ensures v == (0x1_0000 * x) % W
  {
    ScaleMod16(x);
  }

  /** slli rd, rs1, imm, for every amount. */
  method Slli(m: Machine, rd: nat, rs1: nat, imm: nat)
    requires m.Valid() && rd < 32 && rs1 < 32 && rd != SP && imm < 32
    modifies m`regs, m`mem
    ensures m.Valid() && Kept(old(m.regs), m.regs, {rd, TP}) && KeptSlots(old(m.mem), m.mem, {VAR_A, VAR_C})
    ensures rd != ZERO ==> m.regs[rd] == ShiftLeft(old(m.regs[rs1]), imm)
  {
    if imm == 0 {
      ShiftLeftZero(m.regs[rs1]);
      if rd != rs1 {
        Mv(m, rd, rs1);
      }
    } else if imm >= 24 {
      MoveByteToTop(m, rd, rs1);
      ByteToTop(old(m.regs[rs1]), Join(m.mem.slots[VAR_A]), imm - 24);
      SlliRest(m, rd, imm - 24);
    } else if imm >= 16 {
      MoveHalfToTop(m, rd, rs1);
      HalfToTop(old(m.regs[rs1]), Join(m.mem.slots[VAR_A]), imm - 16);
      SlliRest(m, rd, imm - 16);
    } else {
      SlliSmall(m, rd, rs1, imm);
    }
  }

  /** rd := the low byte of rs1 as byte 3. */
  method MoveByteToTop(m: Machine, rd: nat, rs1: nat)
    requires m.Valid() && rd < 32 && rs1 < 32 && rd != SP
    modifies m`regs, m`mem
    ensures var q := Quad(0, 0, 0, LowByte(old(m.regs[rs1])));
            && m.Valid() && m.regs == Write(old(m.regs), rd, Join(q))
            && m.mem == old(m.mem).(slots := old(m.mem.slots)[VAR_A := q])
  {
    m.ClearSlot(VAR_A);
    m.SbSlot(rs1, VAR_A, 3);
    assert m.mem.slots[VAR_A] == Quad(0, 0, 0, LowByte(m.regs[rs1]));
    m.Pop(rd, VAR_A);
  }

  /** rd := the low halfword of rs1 as bytes 2 and 3. */
  method MoveHalfToTop(m: Machine, rd: nat, rs1: nat)
    requires m.Valid() && rd < 32 && rs1 < 32 && rd != SP
    modifies m`regs, m`mem
    ensures var p := Bytes(old(m.regs[rs1])); var q := Quad(0, 0, p.b0, p.b1);
            && m.Valid() && m.regs == Write(old(m.regs)[TP := m.regs[TP]], rd, Join(q))
            && m.mem == old(m.mem).(slots := old(m.mem.slots)[VAR_A := q][VAR_C := p])
  {
    m.ClearSlot(VAR_A);
    ShSlot(m, rs1, VAR_A);
    m.Pop(rd, VAR_A);
  }

  /** slli rd, rd, imm after the move. */
  method SlliRest(m: Machine, rd: nat, imm: nat)
    requires m.Valid() && rd < 32 && rd != SP && imm < 16
    modifies m`regs
    ensures m.Valid() && m.regs == Write(old(m.regs), rd, ShiftLeft(old(m.regs[rd]), imm))
  {
    if imm == 0 {
      ShiftLeftZero(m.regs[rd]);
      assert m.regs == Write(m.regs, rd, m.regs[rd]);
    } else {
      SlliSmall(m, rd, rd, imm);
    }
  }

  /** slli r, r, 2: from an index to a byte offset. */
  method Slli2(m: Machine, r: nat)
    requires m.Valid() && r < 32 && r != SP && m.regs[r] < 0x10_0000
    modifies m`regs
    ensures m.Valid() && m.regs == Write(old(m.regs), r, 4 * old(m.regs[r]))
  {
    assert Pow2(2) == 4;
    SlliSmall(m, r, r, 2);
  }

  // ----- looking up the shift tables -----

  const AMOUNT_ROW: int := LUT + 256 * 0x1f

  /** Row 0x1f of the and table masks a shift amount. */
  lemma AmountEntry(l: Layout, y: Word)
    ensures 0 <= l.rom[AMOUNT_ROW + LowByte(y)] == Amount(y) < 32
  {
    var b := LowByte(y);
    ReadLogicEntry(l, And8, 0x1f, b);
    AmountBound(y);
    AmountBound(b);
    AndSymmetric(0x1f, b);
  }

  function RomQuad(l: Layout, k: int): Quad
    requires 0 <= k && k + 4 <= RODATA_SIZE
  {
    Quad(l.rom[k], l.rom[k + 1], l.rom[k + 2], l.rom[k + 3])
  }

  /** The little-endian word at offset k of .rodata. */
  function RomWord(l: Layout, k: int): Word
    requires 0 <= k && k + 4 <= RODATA_SIZE
  {
    Join(RomQuad(l, k))
  }

  lemma RomReads(l: Layout, m: Memory, k: int, q: Quad)
    requires 0 <= k && k + 4 <= RODATA_SIZE && ReadsWord(l, m, (l.rodata + k) % W, q)
    ensures q == RomQuad(l, k)
  {
    assert (l.rodata + k) % W == l.rodata + k;
  }

  /** The offset of row j of a shift table. */
  function RowOffset(t: Table, j: nat): (k: int)
    requires !t.IsLogic() && j < 32
    ensures 0 <= k && k + 1024 <= RODATA_SIZE
  {
    TableOffset(t) + 1024 * j
  }

  lemma RowEntry(l: Layout, t: Table, j: nat, i: Byte)
    requires !t.IsLogic() && j < 32
    ensures RomWord(l, RowOffset(t, j) + 4 * i) == ShiftEntry(t, j, i)
  {
    ReadShiftEntry(l, t, j, i);
  }

  /** lw through a pointer into .rodata. */
  method LwRodata(m: Machine, rd: nat, base: nat, ghost k: int)
    requires m.Valid() && rd < 32 && base < 32 && rd != SP && 0 <= k && k + 4 <= RODATA_SIZE
    requires m.regs[base] == m.layout.rodata + k
    modifies m`regs
    ensures m.Valid() && m.regs == Write(old(m.regs), rd, RomWord(m.layout, k))
  {
    hide ReadsWord, RomQuad, Join;
    var q := m.Lw(rd, base, 0);
    RomReads(m.layout, m.mem, k, q);
  }

  /** getshamt s0, rs. */
  method GetShamt(m: Machine, rs: nat)
    requires m.Valid() && rs < 32
    modifies m`regs, m`mem
    ensures m.Valid() && m.regs == old(m.regs)[TP := m.regs[TP]][S0 := Amount(old(m.regs[rs]))]
    ensures m.mem == old(m.mem).(slots := old(m.mem.slots)[VAR_B := m.mem.slots[VAR_B]])
  {
    m.SbSlot(rs, VAR_B, 0);
    m.LbuSlot(S0, VAR_B, 0);
    m.La(TP, m.layout.rodata + AMOUNT_ROW);
    ghost var k := AMOUNT_ROW + m.regs[S0];
    AmountEntry(m.layout, old(m.regs[rs]));
    m.Add(S0, S0, TP);
    m.LbuRodata(S0, S0, k);
  }

  lemma TableBound(t: Table)
    requires !t.IsLogic()
    ensures 0 <= TableOffset(t) && TableOffset(t) + 0x8000 <= RODATA_SIZE
  {
  }

  /** s0 := the address of the row for the amount in rs. */
  method RowOfRegister(m: Machine, t: Table, rs: nat)
    requires m.Valid() && rs < 32 && !t.IsLogic()
    modifies m`regs, m`mem
    ensures Amount(old(m.regs[rs])) < 32
    ensures m.Valid() && m.regs == old(m.regs)[TP := m.regs[TP]]
                                              [S0 := m.layout.rodata + RowOffset(t, Amount(old(m.regs[rs])))]
    ensures m.mem == old(m.mem).(slots := old(m.mem.slots)[VAR_B := m.mem.slots[VAR_B]])
  {
    hide Amount, TableOffset, AddWord, RowOffset;
    AmountBound(m.regs[rs]);
    GetShamt(m, rs);
    ByteTimes256(m);
    Slli2(m, S0);
    TableBound(t);
    m.La(TP, m.layout.rodata + TableOffset(t));
    RowAddress(m.layout, t, Amount(old(m.regs[rs])));
    m.Add(S0, S0, TP);
  }

  lemma RowAddress(l: Layout, t: Table, j: nat)
    requires !t.IsLogic() && j < 32
    ensures 0 <= l.rodata + TableOffset(t) < W
    ensures AddWord(4 * (256 * j), l.rodata + TableOffset(t)) == l.rodata + RowOffset(t, j)
  {
  }

  /** s0 := s0 << 8, through slot B. */
  method ByteTimes256(m: Machine)
    requires m.Valid() && m.regs[S0] < 256
    modifies m`regs, m`mem
    ensures m.Valid() && m.regs == old(m.regs)[S0 := 256 * old(m.regs[S0])]
    ensures m.mem == old(m.mem).(slots := old(m.mem.slots)[VAR_B := m.mem.slots[VAR_B]])
  {
    hide Join, LowByte;
    LowByteOf(m.regs[S0]);
    m.ClearSlot(VAR_B);
    m.SbSlot(S0, VAR_B, 1);
    JoinIndex(m.mem.slots[VAR_B]);
    m.Pop(S0, VAR_B);
  }

  /** get_shift_byte_in_tp s0, b: tp := the entry for byte b of slot A in the row at s0. */
  method GetShiftByte(m: Machine, ghost k: int, b: nat)
    requires m.Valid() && b < 4 && 0 <= k && k + 1024 <= RODATA_SIZE && m.regs[S0] == m.layout.rodata + k
    modifies m`regs
    ensures m.Valid() && m.regs == old(m.regs)[TP := RomWord(m.layout, k + 4 * m.mem.slots[VAR_A].At(b))]
  {
    hide RomWord, AddWord;
    m.LbuSlot(TP, VAR_A, b);
    Slli2(m, TP);
    ghost var d := m.regs[TP];
    SmallAdd(m.regs[S0], d);
    m.Add(TP, S0, TP);
    LwRodata(m, TP, TP, k + d);
  }

  // ----- sll -----

  /** gp + tp := the sum of the four entries of the row at s0, each in its place. */
  method SumShiftedEntries(m: Machine, ghost k: int)
    requires m.Valid() && 0 <= k && k + 1024 <= RODATA_SIZE && m.regs[S0] == m.layout.rodata + k
    modifies m`regs, m`mem
    ensures m.Valid() && m.regs == old(m.regs)[GP := m.regs[GP]][TP := m.regs[TP]]
    ensures m.mem == old(m.mem).(slots := old(m.mem.slots)[VAR_B := m.mem.slots[VAR_B]][VAR_C := m.mem.slots[VAR_C]])
    ensures var l, a := m.layout, m.mem.slots[VAR_A];
            var e3, e2 := RomWord(l, k + 4 * a.b3), RomWord(l, k + 4 * a.b2);
            var e1, e0 := RomWord(l, k + 4 * a.b1), RomWord(l, k + 4 * a.b0);
            AddWord(m.regs[GP], m.regs[TP]) == SllSum(e3, e2, e1, e0)
  {
    hide Join, AddWord, ShiftLeft, LowByte, Bytes;
    SumUpperEntries(m, k);
    GetShiftByte(m, k, 1);
    SlliSmall(m, TP, TP, 8);
    m.Add(GP, GP, TP);
    GetShiftByte(m, k, 0);
  }

  /** gp := the sum of the entries for bytes 3 and 2. */
  method SumUpperEntries(m: Machine, ghost k: int)
    requires m.Valid() && 0 <= k && k + 1024 <= RODATA_SIZE && m.regs[S0] == m.layout.rodata + k
    modifies m`regs, m`mem
    ensures m.Valid()
    ensures m.mem == old(m.mem).(slots := old(m.mem.slots)[VAR_B := m.mem.slots[VAR_B]][VAR_C := m.mem.slots[VAR_C]])
    ensures var l, a := m.layout, m.mem.slots[VAR_A];
            var e3, e2 := RomWord(l, k + 4 * a.b3), RomWord(l, k + 4 * a.b2);
            var h3, h2 := Join(Quad(0, 0, 0, LowByte(e3))), Join(Quad(0, 0, Bytes(e2).b0, Bytes(e2).b1));
            m.regs == old(m.regs)[GP := AddWord(h3, h2)][TP := m.regs[TP]]
  {
    hide Join, AddWord;
    m.ClearSlot(VAR_B);
    GetShiftByte(m, k, 3);
    m.SbSlot(TP, VAR_B, 3);
    m.Pop(GP, VAR_B);
    GetShiftByte(m, k, 2);
    ShSlot(m, TP, VAR_B);
    m.Pop(TP, VAR_B);
    m.Add(GP, GP, TP);
  }

  /** How sll puts the four entries together. */
  function SllSum(e3: Word, e2: Word, e1: Word, e0: Word): Word
  {
    var q := Bytes(e2);
    AddWord(AddWord(AddWord(Join(Quad(0, 0, 0, LowByte(e3))), Join(Quad(0, 0, q.b0, q.b1))), ShiftLeft(e1, 8)), e0)
  }

  lemma SumIsShiftLeft(x: Word, s: nat)
    requires s < 32
    ensures var a := Bytes(x);
            SllSum(ShiftLeft(a.b3, s), ShiftLeft(a.b2, s), ShiftLeft(a.b1, s), ShiftLeft(a.b0, s)) == ShiftLeft(x, s)
  {
    hide AddWord, ShiftLeft, Bytes, Join;
    var a := Bytes(x);
    Placed(ShiftLeft(a.b3, s), ShiftLeft(a.b2, s));
    SllRecombines(x, s);
  }

  /** The entries for bytes 3 and 2 in their places. */
  lemma Placed(e3: Word, e2: Word)
    ensures Join(Quad(0, 0, 0, LowByte(e3))) == 0x100_0000 * (e3 % 256)
    ensures Join(Quad(0, 0, Bytes(e2).b0, Bytes(e2).b1)) == 0x1_0000 * (e2 % 0x1_0000)
  {
    hide Bytes;
    LowHalf(e2);
  }

  lemma SumIsSll(l: Layout, x: Word, s: nat)
    requires s < 32
    ensures var k, a := RowOffset(Sll8, s), Bytes(x);
            var e3, e2 := RomWord(l, k + 4 * a.b3), RomWord(l, k + 4 * a.b2);
            var e1, e0 := RomWord(l, k + 4 * a.b1), RomWord(l, k + 4 * a.b0);
            SllSum(e3, e2, e1, e0) == ShiftLeft(x, s)
  {
    hide RomWord, SllSum, ShiftLeft, Bytes, RowOffset;
    var a := Bytes(x);
    RowEntry(l, Sll8, s, a.b3);
    RowEntry(l, Sll8, s, a.b2);
    RowEntry(l, Sll8, s, a.b1);
    RowEntry(l, Sll8, s, a.b0);
    SumIsShiftLeft(x, s);
  }

  /** sll rd, rs1, rs2. */
  method Sll(m: Machine, rd: nat, rs1: nat, rs2: nat)
    requires m.Valid() && Operand(rd) && Operand(rs1) && Operand(rs2)
    modifies m`regs, m`mem
    ensures m.Valid() && Kept(old(m.regs), m.regs, {rd, TP, GP})
    ensures KeptSlots(old(m.mem), m.mem, {1, VAR_A, VAR_B, VAR_C})
    ensures rd != ZERO ==> m.regs[rd] == ShiftLeft(old(m.regs[rs1]), Amount(old(m.regs[rs2])))
  {
    hide Join, AddWord, RomWord, RowOffset, SllSum, ShiftLeft, Bytes;
    ghost var x, s := m.regs[rs1], Amount(m.regs[rs2]);
    m.Sw(S0, 1);
    m.Sw(rs1, VAR_A);
    RowOfRegister(m, Sll8, rs2);
    SumShiftedEntries(m, RowOffset(Sll8, s));
    m.Pop(S0, 1);
    SumIsSll(m.layout, x, s);
    m.Add(rd, GP, TP);
  }

  // ----- srl, sra, srli, srai -----

  /** The entries for bytes 2, 1 and 0 into slots B, C and D. */
  method LowerEntries(m: Machine, ghost k: int)
    requires m.Valid() && 0 <= k && k + 1024 <= RODATA_SIZE && m.regs[S0] == m.layout.rodata + k
    modifies m`regs, m`mem
    ensures m.Valid() && m.regs == old(m.regs)[TP := m.regs[TP]]
    ensures var l, a := m.layout, m.mem.slots[VAR_A];
            m.mem == old(m.mem).(slots := old(m.mem.slots)[VAR_B := RowQuad(l, k, a.b2)]
                                                          [VAR_C := RowQuad(l, k, a.b1)][VAR_D := RowQuad(l, k, a.b0)])
  {
    hide RomWord, Bytes;
    GetShiftByte(m, k, 2);
    m.Sw(TP, VAR_B);
    GetShiftByte(m, k, 1);
    m.Sw(TP, VAR_C);
    GetShiftByte(m, k, 0);
    m.Sw(TP, VAR_D);
  }

  predicate NoCarry(q2: Quad, q1: Quad, q0: Quad) { q2.b1 + q1.b2 + q0.b3 < 256 && q2.b2 + q1.b3 < 256 }

  function LowerSum(q2: Quad, q1: Quad, q0: Quad): Quad
    requires NoCarry(q2, q1, q0)
  {
    Quad(q2.b1 + q1.b2 + q0.b3, q2.b2 + q1.b3, q2.b3, 0)
  }

  /** gp := the lower three result bytes, added up from slots B, C and D. */
  method CombineLower(m: Machine)
    requires m.Valid()
    requires NoCarry(m.mem.slots[VAR_B], m.mem.slots[VAR_C], m.mem.slots[VAR_D])
    modifies m`regs, m`mem
    ensures m.Valid() && m.mem == old(m.mem).(slots := old(m.mem.slots)[VAR_D := m.mem.slots[VAR_D]])
    ensures var q2, q1, q0 := old(m.mem.slots[VAR_B]), old(m.mem.slots[VAR_C]), old(m.mem.slots[VAR_D]);
            m.regs == old(m.regs)[TP := m.regs[TP]][GP := Join(LowerSum(q2, q1, q0))]
  {
    hide Join, LowByte, Bytes;
    LowerByte0(m);
    LowerByte1(m);
    m.LbuSlot(GP, VAR_B, 3);
    LowByteOf(m.regs[GP]);
    m.SbSlot(GP, VAR_D, 2);
    m.Pop(GP, VAR_D);
  }

  lemma LowByteOf(b: Word)
    requires b < 256
    ensures LowByte(b) == b
  {
  }

  lemma SmallSum(a: Word, b: Word)
    requires a + b < 256
    ensures AddWord(a, b) == a + b && LowByte(a + b) == a + b && Bytes(a + b) == Quad(a + b, 0, 0, 0)
  {
    BytesOfJoin(Quad(a + b, 0, 0, 0));
  }

  /** Byte 0 of the result, the rest of slot D cleared. */
  method LowerByte0(m: Machine)
    requires m.Valid() && NoCarry(m.mem.slots[VAR_B], m.mem.slots[VAR_C], m.mem.slots[VAR_D])
    modifies m`regs, m`mem
    ensures var q2, q1, q0 := old(m.mem.slots[VAR_B]), old(m.mem.slots[VAR_C]), old(m.mem.slots[VAR_D]);
            && m.Valid() && m.regs == old(m.regs)[TP := m.regs[TP]][GP := m.regs[GP]]
            && m.mem == old(m.mem).(slots := old(m.mem.slots)[VAR_D := Quad(q2.b1 + q1.b2 + q0.b3, 0, 0, 0)])
  {
    hide AddWord, Bytes;
    m.LbuSlot(GP, VAR_B, 1);
    m.LbuSlot(TP, VAR_C, 2);
    SmallSum(m.regs[GP], m.regs[TP]);
    m.Add(GP, GP, TP);
    m.LbuSlot(TP, VAR_D, 3);
    SmallSum(m.regs[GP], m.regs[TP]);
    m.Add(GP, GP, TP);
    m.Sw(GP, VAR_D);
  }

  /** Byte 1 of the result. */
  method LowerByte1(m: Machine)
    requires m.Valid() && m.mem.slots[VAR_B].b2 + m.mem.slots[VAR_C].b3 < 256
    modifies m`regs, m`mem
    ensures var q2, q1, d := old(m.mem.slots[VAR_B]), old(m.mem.slots[VAR_C]), old(m.mem.slots[VAR_D]);
            && m.Valid() && m.regs == old(m.regs)[TP := m.regs[TP]][GP := m.regs[GP]]
            && m.mem == old(m.mem).(slots := old(m.mem.slots)[VAR_D := d.(b1 := q2.b2 + q1.b3)])
  {
    hide AddWord, Bytes, LowByte;
    m.LbuSlot(GP, VAR_B, 2);
    m.LbuSlot(TP, VAR_C, 3);
    SmallSum(m.regs[GP], m.regs[TP]);
    m.Add(GP, GP, TP);
    m.SbSlot(GP, VAR_D, 1);
  }

  function RightTable(arith: bool): Table { if arith then Sra8 else Srl8 }

  /** x >> s, arithmetic or logical. */
  function RightShifted(arith: bool, x: Word, s: nat): Word
    requires s < 32
  {
    if arith then ShiftRightSigned(x, s) else ShiftRight(x, s)
  }

  /** The entries of a row, as bytes, for the given operand bytes. */
  function RowQuad(l: Layout, k: int, b: Byte): Quad
    requires 0 <= k && k + 1024 <= RODATA_SIZE
  {
    Bytes(RomWord(l, k + 4 * b))
  }

  lemma RowQuadEntry(l: Layout, s: nat, b: Byte)
    requires s < 32
    ensures RowQuad(l, RowOffset(Srl8, s), b) == Bytes(ShiftRight(0x100_0000 * b, s))
  {
    RowEntry(l, Srl8, s, b);
  }

  lemma LowerIsRightShift(l: Layout, x: Word, s: nat)
    requires s < 32
    ensures var k, a := RowOffset(Srl8, s), Bytes(x);
            var q2, q1, q0 := RowQuad(l, k, a.b2), RowQuad(l, k, a.b1), RowQuad(l, k, a.b0);
            NoCarry(q2, q1, q0) && Join(LowerSum(q2, q1, q0)) + ShiftRight(0x100_0000 * a.b3, s) == ShiftRight(x, s)
  {
    hide RowOffset, RowQuad, ShiftRight, Bytes, Join;
    var a := Bytes(x);
    RowQuadEntry(l, s, a.b2);
    RowQuadEntry(l, s, a.b1);
    RowQuadEntry(l, s, a.b0);
    SrlRecombines(x, s);
  }

  lemma TopEntry(l: Layout, arith: bool, x: Word, s: nat)
    requires s < 32
    ensures var b := Bytes(x).b3;
            RomWord(l, RowOffset(RightTable(arith), s) + 4 * b) - ShiftRight(0x100_0000 * b, s)
              == RightShifted(arith, x, s) - ShiftRight(x, s)
  {
    hide RowOffset, RomWord, ShiftRight, ShiftRightSigned, Bytes;
    RowEntry(l, RightTable(arith), s, Bytes(x).b3);
    SraTopEntry(x, s);
  }

  /** The entries add up to the shifted word. */
  lemma SumIsRightShift(l: Layout, arith: bool, x: Word, s: nat)
    requires s < 32
    ensures var k, a := RowOffset(Srl8, s), Bytes(x);
            var q2, q1, q0 := RowQuad(l, k, a.b2), RowQuad(l, k, a.b1), RowQuad(l, k, a.b0);
            && NoCarry(q2, q1, q0)
            && AddWord(Join(LowerSum(q2, q1, q0)), RomWord(l, RowOffset(RightTable(arith), s) + 4 * a.b3))
               == RightShifted(arith, x, s)
  {
    hide RowOffset, RomWord, ShiftRight, RightShifted, Bytes, Join, RowQuad, NoCarry, LowerSum;
    LowerIsRightShift(l, x, s);
    TopEntry(l, arith, x, s);
  }

  /** From the row in the srl table to the row in the sra table. */
  method ToSraTable(m: Machine, ghost s: nat)
    requires m.Valid() && s < 32 && m.regs[S0] == m.layout.rodata + RowOffset(Srl8, s)
    modifies m`regs
    ensures m.Valid() && m.regs == old(m.regs)[TP := m.regs[TP]][S0 := m.layout.rodata + RowOffset(Sra8, s)]
  {
    m.La(TP, TableOffset(Sra8) - TableOffset(Srl8));
    m.Add(S0, S0, TP);
  }

  /** shift_right_template from the row address in s0 on; x is in slot A. */
  method ShiftRightTail(m: Machine, arith: bool, rd: nat, ghost x: Word, ghost s: nat)
    requires m.Valid() && rd < 32 && rd != SP && s < 32 && m.regs[S0] == m.layout.rodata + RowOffset(Srl8, s)
    requires m.mem.slots[VAR_A] == Bytes(x)
    modifies m`regs, m`mem
    ensures m.Valid() && KeptSlots(old(m.mem), m.mem, {VAR_B, VAR_C, VAR_D})
    ensures Kept(old(m.regs)[S0 := Join(old(m.mem.slots[1]))], m.regs, {rd, TP, GP})
    ensures rd != ZERO ==> m.regs[rd] == RightShifted(arith, x, s)
  {
    hide Join, AddWord, RowQuad, NoCarry, LowerSum, RomWord, RowOffset, RightShifted, Bytes;
    SumIsRightShift(m.layout, arith, x, s);
    LowerEntries(m, RowOffset(Srl8, s));
    CombineLower(m);
    if arith {
      ToSraTable(m, s);
    }
    GetShiftByte(m, RowOffset(RightTable(arith), s), 3);
    m.Pop(S0, 1);
    m.Add(rd, GP, TP);
  }

  /** srl, sra rd, rs1, rs2. */
  method ShiftRightRegister(m: Machine, arith: bool, rd: nat, rs1: nat, rs2: nat)
    requires m.Valid() && Operand(rd) && Operand(rs1) && Operand(rs2)
    modifies m`regs, m`mem
    ensures m.Valid() && Kept(old(m.regs), m.regs, {rd, TP, GP})
    ensures KeptSlots(old(m.mem), m.mem, {1, VAR_A, VAR_B, VAR_C, VAR_D})
    ensures Amount(old(m.regs[rs2])) < 32
    ensures rd != ZERO ==> m.regs[rd] == RightShifted(arith, old(m.regs[rs1]), Amount(old(m.regs[rs2])))
  {
    ghost var x, s := m.regs[rs1], Amount(m.regs[rs2]);
    m.Sw(S0, 1);
    m.Sw(rs1, VAR_A);
    RowOfRegister(m, Srl8, rs2);
    ShiftRightTail(m, arith, rd, x, s);
  }

  /** srli, srai rd, rs1, imm. */
  method ShiftRightImmediate(m: Machine, arith: bool, rd: nat, rs1: nat, imm: nat)
    requires m.Valid() && (Operand(rd) || rd == GP) && (Operand(rs1) || rs1 == GP) && imm < 32
    modifies m`regs, m`mem
    ensures m.Valid() && Kept(old(m.regs), m.regs, {rd, TP, GP})
    ensures KeptSlots(old(m.mem), m.mem, {1, VAR_A, VAR_B, VAR_C, VAR_D})
    ensures rd != ZERO ==> m.regs[rd] == RightShifted(arith, old(m.regs[rs1]), imm)
  {
    if imm == 24 {
      ShiftRight24(m, arith, rd, rs1);
    } else {
      ghost var x := m.regs[rs1];
      m.Sw(S0, 1);
      m.Sw(rs1, VAR_A);
      m.La(S0, m.layout.rodata + RowOffset(Srl8, imm));
      ShiftRightTail(m, arith, rd, x, imm);
    }
  }

  lemma TopByteShift(l: Layout, x: Word)
    ensures Bytes(x).b3 == RightShifted(false, x, 24)
    ensures RomWord(l, RowOffset(Sra8, 24) + 4 * Bytes(x).b3) == RightShifted(true, x, 24)
  {
    var b: int := Bytes(x).b3;
    RowEntry(l, Sra8, 24, b);
    SraTopEntry(x, 24);
    ByteFields(x);
    ByteFields(0x100_0000 * b);
    BytesDigits(0x100_0000 * b);
  }

  /** The fast path for an immediate of 24. */
  method ShiftRight24(m: Machine, arith: bool, rd: nat, rs1: nat)
    requires m.Valid() && rd < 32 && rs1 < 32 && rd != SP && rd != TP
    modifies m`regs, m`mem
    ensures m.Valid() && Kept(old(m.regs), m.regs, {rd, TP})
    ensures KeptSlots(old(m.mem), m.mem, {VAR_A, VAR_C})
    ensures rd != ZERO ==> m.regs[rd] == RightShifted(arith, old(m.regs[rs1]), 24)
  {
    hide Join, RomWord, RightShifted, Bytes;
    TopByteShift(m.layout, m.regs[rs1]);
    if arith {
      m.Sw(rs1, VAR_A);
      m.La(TP, m.layout.rodata + RowOffset(Sra8, 24));
      m.LbuSlot(rd, VAR_A, 3);
      Slli2(m, rd);
      ghost var d := m.regs[rd];
      m.Add(TP, TP, rd);
      LwRodata(m, rd, TP, RowOffset(Sra8, 24) + d);
    } else {
      GetByte(m, rd, rs1, 3);
    }
  }

  // ----- byte and halfword accesses -----

  /** lbu from outside the scratch slots. */
  method LbuOutside(m: Machine, rd: nat, base: nat, offset: int)
    requires m.Valid() && rd < 32 && base < 32 && rd != SP && !m.layout.InSlots((m.regs[base] + offset) % W)
    modifies m`regs
    ensures m.Valid() && m.regs == Write(old(m.regs), rd, LoadByte(m.layout, m.mem, (old(m.regs[base]) + offset) % W))
  {
    var v := m.Lbu(rd, base, offset);
  }

  /** Scratch slots do not show elsewhere. */
  lemma SlotsElsewhere(l: Layout, before: Memory, after: Memory, a: int)
    requires !l.InSlots(a) && before.same == after.same && before.rest == after.rest
    ensures LoadByte(l, before, a) == LoadByte(l, after, a)
  {
  }

  /** sw x0 to slot A, lbu r from outside, then sb r to byte b of slot A and lw r from it. */
  method LoadIntoSlot(m: Machine, r: nat, base: nat, offset: int, b: nat)
    requires m.Valid() && r < 32 && base < 32 && r != SP && b < 4 && !m.layout.InSlots((m.regs[base] + offset) % W)
    modifies m`regs, m`mem
    ensures var v := LoadByte(m.layout, old(m.mem), (old(m.regs[base]) + offset) % W);
            var q := Quad(0, 0, 0, 0).With(b, if r == ZERO then 0 else v);
            && m.Valid() && m.regs == Write(old(m.regs), r, Join(q))
            && m.mem == old(m.mem).(slots := old(m.mem.slots)[VAR_A := q])
  {
    hide LoadByte, Join;
    m.ClearSlot(VAR_A);
    SlotsElsewhere(m.layout, old(m.mem), m.mem, (m.regs[base] + offset) % W);
    LbuOutside(m, r, base, offset);
    LowByteOf(m.regs[r]);
    m.SbSlot(r, VAR_A, b);
    m.Pop(r, VAR_A);
  }

  /** The sign-extended n-bit value x. */
  function SignExtend(x: nat, n: nat): Word
    requires x < Pow2(n) && 1 <= n <= 32
  {
    WordPower();
    Pow2Monotone(n, 32);
    if x < Pow2(n - 1) then x else W - Pow2(n) + x
  }

  /** A byte at the top, shifted back down arithmetically by 32 - n. */
  lemma ShiftTopByte(b: Byte, s: nat, c: nat, d: nat)
    requires s < 32 && Pow2(s) == c && c * d == 0x100_0000
    ensures RightShifted(true, 0x100_0000 * b, s) == if b < 128 then d * b else d * b + (W - Pow2(32 - s))
  {
    MulAssoc(c, d, b);
    SplitUnique(0x100_0000 * b, s, d * b, 0);
  }

  /** lb rd, offset(base). */
  method Lb(m: Machine, rd: nat, base: nat, offset: int)
    requires m.Valid() && Operand(rd) && base < 32 && !m.layout.InSlots((m.regs[base] + offset) % W)
    modifies m`regs, m`mem
    ensures m.Valid() && Kept(old(m.regs), m.regs, {rd, TP, GP})
    ensures KeptSlots(old(m.mem), m.mem, {1, VAR_A, VAR_B, VAR_C, VAR_D})
    ensures var b := LoadByte(m.layout, old(m.mem), (old(m.regs[base]) + offset) % W);
            b < Pow2(8) && (rd != ZERO ==> m.regs[rd] == SignExtend(b, 8))
  {
    hide RightShifted, LoadByte, SignExtend;
    LbResult(LoadByte(m.layout, m.mem, (m.regs[base] + offset) % W));
    LoadIntoSlot(m, rd, base, offset, 3);
    ShiftRightImmediate(m, true, rd, rd, 24);
  }

  lemma LbResult(b: Byte)
    ensures b < Pow2(8) && RightShifted(true, 0x100_0000 * b, 24) == SignExtend(b, 8)
  {
    hide RightShifted;
    WordPower();
    assert Pow2(7) == 128;
    ShiftTopByte(b, 24, 0x100_0000, 1);
  }

  /** The halfword at an address, little-endian. */
  function LoadHalf(l: Layout, m: Memory, a: int): nat
  {
    LoadByte(l, m, a % W) + 256 * LoadByte(l, m, (a + 1) % W)
  }

  lemma LhuResult(h: Byte, b: Byte)
    ensures AddWord(b, Join(Quad(0, h, 0, 0))) == b + 256 * h
  {
    var v: Word := 256 * h;
    assert Join(Quad(0, h, 0, 0)) == v;
    SmallAdd(b, v);
  }

  lemma SmallAdd(x: Word, y: Word)
    requires x + y < W
    ensures AddWord(x, y) == x + y
  {
  }

  /** lhu rd, offset(base). */
  method Lhu(m: Machine, rd: nat, base: nat, offset: int)
    requires m.Valid() && Operand(rd) && base < 32 && base != TP
    requires !m.layout.InSlots((m.regs[base] + offset) % W) && !m.layout.InSlots((m.regs[base] + offset + 1) % W)
    modifies m`regs, m`mem
    ensures m.Valid() && Kept(old(m.regs), m.regs, {rd, TP}) && KeptSlots(old(m.mem), m.mem, {VAR_A})
    ensures rd != ZERO ==> m.regs[rd] == LoadHalf(m.layout, old(m.mem), old(m.regs[base]) + offset)
  {
    hide LoadByte, AddWord, Join;
    ghost var a := m.regs[base] + offset;
    LhuResult(LoadByte(m.layout, m.mem, (a + 1) % W), LoadByte(m.layout, m.mem, a % W));
    LoadIntoSlot(m, TP, base, offset + 1, 1);
    SlotsElsewhere(m.layout, old(m.mem), m.mem, (m.regs[base] + offset) % W);
    LbuOutside(m, rd, base, offset);
    m.Add(rd, rd, TP);
  }

  lemma LhResult(h: Byte, b: Byte)
    ensures b + 256 * h < Pow2(16)
    ensures AddWord(b, RightShifted(true, Join(Quad(0, 0, 0, h)), 16)) == SignExtend(b + 256 * h, 16)
  {
    hide RightShifted;
    WordPower();
    assert Pow2(16) == 2 * Pow2(15);
    ShiftTopByte(h, 16, 0x1_0000, 256);
  }

  /** lh rd, offset(base). */
  method Lh(m: Machine, rd: nat, base: nat, offset: int)
    requires m.Valid() && Operand(rd) && base < 32 && base != TP && base != GP
    requires !m.layout.InSlots((m.regs[base] + offset) % W) && !m.layout.InSlots((m.regs[base] + offset + 1) % W)
    modifies m`regs, m`mem
    ensures m.Valid() && Kept(old(m.regs), m.regs, {rd, TP, GP})
    ensures KeptSlots(old(m.mem), m.mem, {1, VAR_A, VAR_B, VAR_C, VAR_D})
    ensures var h := LoadHalf(m.layout, old(m.mem), old(m.regs[base]) + offset);
            h < Pow2(16) && (rd != ZERO ==> m.regs[rd] == SignExtend(h, 16))
  {
    hide RightShifted, AddWord, LoadByte, SignExtend, Join, Pow2;
    ghost var a := m.regs[base] + offset;
    LhResult(LoadByte(m.layout, m.mem, (a + 1) % W), LoadByte(m.layout, m.mem, a % W));
    LoadIntoSlot(m, GP, base, offset + 1, 3);
    ShiftRightImmediate(m, true, GP, GP, 16);
    SlotsElsewhere(m.layout, old(m.mem), m.mem, a % W);
    LbuOutside(m, rd, base, offset);
    m.Add(rd, rd, GP);
  }

  lemma StoreFree(l: Layout, m: Memory, a: int, v: Byte)
    requires l.Free(a)
    ensures !l.InRodata(a) && StoreByte(l, m, a, v) == m.(rest := m.rest[a := v])
  {
  }

  lemma StoredBytes(x: Word)
    ensures LowByte(x) == Bytes(x).b0 && LowByte(Bytes(x).b1) == Bytes(x).b1
  {
    BytesDigits(x);
    LowByteOf(Bytes(x).b1);
  }

  /** sh rs, offset(base), outside the tables and the scratch slots. */
  method Sh(m: Machine, rs: nat, base: nat, offset: int)
    requires m.Valid() && rs < 32 && base < 32 && base != TP
    requires m.layout.Free((m.regs[base] + offset) % W) && m.layout.Free((m.regs[base] + offset + 1) % W)
    modifies m`regs, m`mem
    ensures m.Valid() && Kept(old(m.regs), m.regs, {TP})
    ensures var a, q := m.regs[base] + offset, Bytes(old(m.regs[rs]));
            m.mem == old(m.mem).(slots := old(m.mem.slots)[VAR_C := q],
                                 rest := old(m.mem.rest)[a % W := q.b0][(a + 1) % W := q.b1])
  {
    hide Bytes, StoreByte, LowByte;
    ghost var a, q := m.regs[base] + offset, Bytes(m.regs[rs]);
    StoredBytes(m.regs[rs]);
    StoreFree(m.layout, m.mem, a % W, q.b0);
    m.Sb(rs, base, offset);
    GetByte(m, TP, rs, 1);
    StoreFree(m.layout, m.mem, (a + 1) % W, q.b1);
    m.Sb(TP, base, offset + 1);
  }
}
