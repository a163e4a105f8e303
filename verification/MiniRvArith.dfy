/** Expansions of the arithmetic, comparison and logic instructions (abstract-machine/tools/minirv/inst-replace.h). */
module MiniRvArith {
  import opened Arithmetic
  import opened Bits
  import opened MiniRvTables
  import opened MiniRvMachine

  // ----- not and sub -----

  const NOT_ROW: int := LUT + 0x2_0000 + 256 * 0xff

  lemma NotRowEntry(l: Layout, b: Byte)
    ensures l.rom[NOT_ROW + b] == 255 - b
  {
    ReadLogicEntry(l, Xor8, 255, b);
    XorOfOnes(b);
  }

  /** Row 0xff of the xor table complements a word byte by byte. */
  lemma NotThroughRow(l: Layout, p: Quad)
    ensures Quad(l.rom[NOT_ROW + p.b0], l.rom[NOT_ROW + p.b1], l.rom[NOT_ROW + p.b2], l.rom[NOT_ROW + p.b3])
         == Bytes(W - 1 - Join(p))
  {
    NotRowEntry(l, p.b0);
    NotRowEntry(l, p.b1);
    NotRowEntry(l, p.b2);
    NotRowEntry(l, p.b3);
    BytesOfJoin(Quad(255 - p.b0, 255 - p.b1, 255 - p.b2, 255 - p.b3));
  }

  /** One byte of `not`: through row 0xff of the xor table. */
  method NotByte(m: Machine, b: nat)
    requires m.Valid() && b < 4 && m.regs[TP] == m.layout.rodata + NOT_ROW
    modifies m`regs, m`mem
    ensures m.Valid() && m.regs == old(m.regs)[GP := m.regs[GP]]
    ensures var v := m.layout.rom[NOT_ROW + old(m.mem.slots[VAR_C]).At(b)];
            m.mem == old(m.mem).(slots := old(m.mem.slots)[VAR_D := old(m.mem.slots[VAR_D]).With(b, v)])
  {
    m.LbuSlot(GP, VAR_C, b);
    ghost var k := NOT_ROW + m.regs[GP];
    m.Add(GP, GP, TP);
    m.LbuRodata(GP, GP, k);
    m.SbSlot(GP, VAR_D, b);
  }

  method NotBytes(m: Machine)
    requires m.Valid() && m.regs[TP] == m.layout.rodata + NOT_ROW
    modifies m`regs, m`mem
    ensures m.Valid() && m.regs == old(m.regs)[GP := m.regs[GP]]
    ensures m.mem == old(m.mem).(slots := old(m.mem.slots)[VAR_D := Bytes(W - 1 - Join(old(m.mem.slots[VAR_C])))])
  {
    hide Bytes, Join;
    NotByte(m, 3);
    NotByte(m, 2);
    NotByte(m, 1);
    NotByte(m, 0);
    NotThroughRow(m.layout, old(m.mem.slots[VAR_C]));
    assert m.mem.slots == old(m.mem.slots)[VAR_D := Bytes(W - 1 - Join(old(m.mem.slots[VAR_C])))];
  }

  /** not rd, rs1. */
  method Not(m: Machine, rd: nat, rs1: nat)
    requires m.Valid() && rd < 32 && rs1 < 32 && rd != SP
    modifies m`regs, m`mem
    ensures m.Valid() && Kept(old(m.regs), m.regs, {rd, TP}) && KeptSlots(old(m.mem), m.mem, {3, VAR_C, VAR_D})
    ensures rd != ZERO ==> m.regs[rd] == W - 1 - old(m.regs[rs1])
  {
    m.Sw(GP, 3);
    m.Sw(rs1, VAR_C);
    m.La(TP, m.layout.rodata + NOT_ROW);
    NotBytes(m);
    m.Pop(GP, 3);
    m.Pop(rd, VAR_D);
  }

  /** sub rd, rs1, rs2: two's complement. */
  method Sub(m: Machine, rd: nat, rs1: nat, rs2: nat)
    requires m.Valid() && rd < 32 && rs1 < 32 && rs2 < 32 && rd != SP && rs1 != TP
    modifies m`regs, m`mem
    ensures m.Valid() && Kept(old(m.regs), m.regs, {rd, TP}) && KeptSlots(old(m.mem), m.mem, {3, VAR_C, VAR_D})
    ensures rd != ZERO ==> m.regs[rd] == SubWord(old(m.regs[rs1]), old(m.regs[rs2]))
  {
    Not(m, TP, rs2);
    m.Add(rd, rs1, TP);
    m.Addi(rd, rd, 1);
  }

  // ----- bytes, small left shifts, the sign bit -----

  /** getbyte rd, rs1, byte. */
  method GetByte(m: Machine, rd: nat, rs1: nat, b: nat)
    requires m.Valid() && rd < 32 && rs1 < 32 && rd != SP && b < 4
    modifies m`regs, m`mem
    ensures m.Valid() && m.regs == Write(old(m.regs), rd, Bytes(old(m.regs[rs1])).At(b))
    ensures m.mem == old(m.mem).(slots := old(m.mem.slots)[VAR_C := Bytes(old(m.regs[rs1]))])
  {
    m.Sw(rs1, VAR_C);
    m.LbuSlot(rd, VAR_C, b);
  }

  /** Doubling once more. */
  lemma ShiftLeftStep(x: Word, s: nat)
    ensures AddWord(ShiftLeft(x, s), ShiftLeft(x, s)) == ShiftLeft(x, s + 1)
  {
    MulAssoc(2, Pow2(s), x);
    AddMod(W, Pow2(s) * x, Pow2(s) * x);
  }

  /** The tail of slli for small amounts: doubling `imm` times. */
  method SlliSmall(m: Machine, rd: nat, rs1: nat, imm: nat)
    requires m.Valid() && rd < 32 && rs1 < 32 && rd != SP && 1 <= imm < 16
    modifies m`regs
    ensures m.Valid() && m.regs == Write(old(m.regs), rd, ShiftLeft(old(m.regs[rs1]), imm))
  {
    ghost var x := m.regs[rs1];
    assert Pow2(0) == 1;
    ShiftLeftStep(x, 0);
    m.Add(rd, rs1, rs1);
    var i := 1;
    while i < imm
      invariant 1 <= i <= imm && m.Valid() && m.regs == Write(old(m.regs), rd, ShiftLeft(x, i))
    {
      ShiftLeftStep(x, i);
      m.Add(rd, rd, rd);
      i := i + 1;
    }
  }

  /** The sign bit of a word. */
  function SignBit(x: Word): Word { if x >= W / 2 then 1 else 0 }

  /** slli r, r, 1. */
  method Slli1(m: Machine, r: nat)
    requires m.Valid() && r < 32 && r != SP
    modifies m`regs
    ensures m.Valid() && m.regs == Write(old(m.regs), r, (2 * old(m.regs[r])) % W)
  {
    assert Pow2(1) == 2;
    SlliSmall(m, r, r, 1);
  }

  lemma MsbBits(x: Word)
    ensures Bytes((2 * Bytes(x).b3) % W).b1 == SignBit(x)
  {
    var b: int := Bytes(x).b3;
    assert x == Join(Bytes(x));
    assert (2 * b) % W == 2 * b;
  }

  /** msb rd, rs1. */
  method Msb(m: Machine, rd: nat, rs1: nat)
    requires m.Valid() && rd < 32 && rs1 < 32 && rd != SP
    modifies m`regs, m`mem
    ensures m.Valid() && m.regs == Write(old(m.regs), rd, SignBit(old(m.regs[rs1])))
    ensures m.mem == old(m.mem).(slots := old(m.mem.slots)[VAR_C := m.mem.slots[VAR_C]])
  {
    GetByte(m, rd, rs1, 3);
    Slli1(m, rd);
    GetByte(m, rd, rd, 1);
    MsbBits(old(m.regs[rs1]));
  }

  // ----- slt and sltu -----

  /** The row of the comparison table: the signs of both operands and of their difference. */
  function CompareIndex(x: Word, y: Word): nat { 4 * SignBit(x) + 2 * SignBit(y) + SignBit(SubWord(x, y)) }

  lemma CompareIndexBound(x: Word, y: Word)
    ensures CompareIndex(x, y) < 8
  {
  }

  /** slt = OF ^ SF, and sltu from it, as tabulated. */
  lemma CompareTables(x: Word, y: Word)
    ensures SLT1_TABLE[CompareIndex(x, y)] == SetIf(LessSigned(x, y))
    ensures SLTU1_TABLE[CompareIndex(x, y)] == SetIf(LessUnsigned(x, y))
  {
  }

  /** sub tp, s0, s1. */
  method SubTp(m: Machine)
    requires m.Valid()
    modifies m`regs, m`mem
    ensures m.Valid() && m.regs == old(m.regs)[TP := SubWord(old(m.regs[S0]), old(m.regs[S1]))]
    ensures KeptSlots(old(m.mem), m.mem, {3, VAR_C, VAR_D})
  {
    Sub(m, TP, S0, S1);
    assert m.regs == old(m.regs)[TP := m.regs[TP]];
  }

  /** gp := the signs of s0 and s1 as two bits. */
  method SignPair(m: Machine)
    requires m.Valid()
    modifies m`regs, m`mem
    ensures m.Valid() && KeptSlots(old(m.mem), m.mem, {VAR_C})
    ensures m.regs == old(m.regs)[GP := 2 * SignBit(old(m.regs[S0])) + SignBit(old(m.regs[S1]))][TP := m.regs[TP]]
  {
    Msb(m, GP, S0);
    Slli1(m, GP);
    Msb(m, TP, S1);
    m.Add(GP, GP, TP);
  }

  method CompareRow(m: Machine)
    requires m.Valid()
    modifies m`regs, m`mem
    ensures m.Valid() && KeptSlots(old(m.mem), m.mem, {3, VAR_C, VAR_D})
    ensures m.regs == old(m.regs)[GP := CompareIndex(old(m.regs[S0]), old(m.regs[S1]))][TP := m.regs[TP]]
  {
    SignPair(m);
    Slli1(m, GP);
    SubTp(m);
    Msb(m, TP, TP);
    m.Add(GP, GP, TP);
  }

  /** Save s0 and s1 and load the operands into them. */
  method LoadOperands(m: Machine, rs1: nat, rs2: nat)
    requires m.Valid() && Operand(rs1) && (Operand(rs2) || rs2 == TP)
    modifies m`regs, m`mem
    ensures m.Valid() && m.regs == old(m.regs)[S0 := old(m.regs[rs1])][S1 := old(m.regs[rs2])]
    ensures KeptSlots(old(m.mem), m.mem, {1, 2, VAR_A})
    ensures m.mem.slots[1] == Bytes(old(m.regs[S0])) && m.mem.slots[2] == Bytes(old(m.regs[S1]))
  {
    m.Sw(S0, 1);
    m.Sw(S1, 2);
    m.Sw(rs2, VAR_A);
    Mv(m, S0, rs1);
    m.Pop(S1, VAR_A);
  }

  /** mv rd, rs1. */
  method Mv(m: Machine, rd: nat, rs1: nat)
    requires m.Valid() && rd < 32 && rs1 < 32 && rd != SP
    modifies m`regs
    ensures m.Valid() && m.regs == Write(old(m.regs), rd, old(m.regs[rs1]))
  {
    m.Addi(rd, rs1, 0);
  }

  /** slt_template with the signed or the unsigned table. */
  method Compare(m: Machine, signed: bool, rd: nat, rs1: nat, rs2: nat)
    requires m.Valid() && (Operand(rd) || rd == TP) && Operand(rs1) && (Operand(rs2) || rs2 == TP)
    modifies m`regs, m`mem
    ensures m.Valid() && Kept(old(m.regs), m.regs, {rd, TP, GP})
    ensures KeptSlots(old(m.mem), m.mem, {1, 2, 3, VAR_A, VAR_C, VAR_D})
    ensures rd != ZERO ==>
              var x, y := old(m.regs[rs1]), old(m.regs[rs2]);
              m.regs[rd] == SetIf(if signed then LessSigned(x, y) else LessUnsigned(x, y))
  {
    hide Bytes, Join, CompareIndex, LessSigned, LessUnsigned, SetIf;
    LoadOperands(m, rs1, rs2);
    var lut := if signed then SLT1 else SLTU1;
    CompareAddress(m, lut);
    ghost var k := CompareIndex(old(m.regs[rs1]), old(m.regs[rs2]));
    m.Pop(S1, 2);
    m.Pop(S0, 1);
    CompareIndexBound(old(m.regs[rs1]), old(m.regs[rs2]));
    CompareLookup(m.layout, signed, old(m.regs[rs1]), old(m.regs[rs2]));
    m.LbuRodata(rd, TP, lut + k);
  }

  /** tp := the address of the table entry for s0 and s1. */
  method CompareAddress(m: Machine, lut: int)
    requires m.Valid() && (lut == SLT1 || lut == SLTU1)
    modifies m`regs, m`mem
    ensures m.Valid() && KeptSlots(old(m.mem), m.mem, {3, VAR_C, VAR_D})
    ensures var k := CompareIndex(old(m.regs[S0]), old(m.regs[S1]));
            0 <= k < 8 && m.regs == old(m.regs)[GP := k][TP := m.layout.rodata + lut + k]
  {
    hide CompareIndex;
    CompareIndexBound(m.regs[S0], m.regs[S1]);
    CompareRow(m);
    m.La(TP, m.layout.rodata + lut);
    m.Add(TP, TP, GP);
  }

  lemma CompareLookup(l: Layout, signed: bool, x: Word, y: Word)
    ensures l.rom[(if signed then SLT1 else SLTU1) + CompareIndex(x, y)]
         == SetIf(if signed then LessSigned(x, y) else LessUnsigned(x, y))
  {
    CompareTables(x, y);
    CompareEntry(l, CompareIndex(x, y));
  }

  lemma CompareEntry(l: Layout, k: nat)
    requires k < 8
    ensures l.rom[SLT1 + k] == SLT1_TABLE[k] && l.rom[SLTU1 + k] == SLTU1_TABLE[k]
  {
    assert l.rom[SLT1..SLT1 + 8][k] == l.rom[SLT1 + k];
    assert l.rom[SLTU1..SLTU1 + 8][k] == l.rom[SLTU1 + k];
  }

  /** slt rd, rs1, rs2. */
  method Slt(m: Machine, rd: nat, rs1: nat, rs2: nat)
    requires m.Valid() && (Operand(rd) || rd == TP) && Operand(rs1) && (Operand(rs2) || rs2 == TP)
    modifies m`regs, m`mem
    ensures m.Valid() && Kept(old(m.regs), m.regs, {rd, TP, GP})
    ensures KeptSlots(old(m.mem), m.mem, {1, 2, 3, VAR_A, VAR_C, VAR_D})
    ensures rd != ZERO ==> m.regs[rd] == SetIf(LessSigned(old(m.regs[rs1]), old(m.regs[rs2])))
  {
    Compare(m, true, rd, rs1, rs2);
  }

  /** sltu rd, rs1, rs2. */
  method Sltu(m: Machine, rd: nat, rs1: nat, rs2: nat)
    requires m.Valid() && (Operand(rd) || rd == TP) && Operand(rs1) && (Operand(rs2) || rs2 == TP)
    modifies m`regs, m`mem
    ensures m.Valid() && Kept(old(m.regs), m.regs, {rd, TP, GP})
    ensures KeptSlots(old(m.mem), m.mem, {1, 2, 3, VAR_A, VAR_C, VAR_D})
    ensures rd != ZERO ==> m.regs[rd] == SetIf(LessUnsigned(old(m.regs[rs1]), old(m.regs[rs2])))
  {
    Compare(m, false, rd, rs1, rs2);
  }

  // ----- and, or, xor -----

  /** Byte `to` of slot D := byte b of a slot. */
  method CopyByte(m: Machine, slot: nat, b: nat, to: nat)
    requires m.Valid() && 1 <= slot <= 7 && b < 4 && to < 4
    modifies m`regs, m`mem
    ensures var v := old(m.mem.slots[slot]).At(b);
            && m.Valid() && m.regs == old(m.regs)[TP := v]
            && m.mem == old(m.mem).(slots := old(m.mem.slots)[VAR_D := old(m.mem.slots[VAR_D]).With(to, v)])
  {
    m.LbuSlot(TP, slot, b);
    m.SbSlot(TP, VAR_D, to);
  }

  /** tp := the table index of byte b of slots A and B. */
  method LogicIndex(m: Machine, b: nat)
    requires m.Valid() && b < 4 && m.mem.slots[VAR_D].b2 == 0 == m.mem.slots[VAR_D].b3
    modifies m`regs, m`mem
    ensures var x, y := old(m.mem.slots[VAR_A]).At(b), old(m.mem.slots[VAR_B]).At(b);
            && m.Valid() && m.regs == old(m.regs)[TP := 256 * x + y]
            && m.mem == old(m.mem).(slots := old(m.mem.slots)[VAR_D := Quad(y, x, 0, 0)])
  {
    hide Join;
    CopyByte(m, VAR_A, b, 1);
    CopyByte(m, VAR_B, b, 0);
    JoinIndex(m.mem.slots[VAR_D]);
    m.Pop(TP, VAR_D);
  }

  lemma JoinIndex(q: Quad)
    requires q.b2 == 0 == q.b3
    ensures Join(q) == 256 * q.b1 + q.b0
  {
  }

  /** logic8_byte_internal: one byte of the result through the table at rd. */
  method LogicLookup(m: Machine, t: Table, rd: nat, b: nat)
    requires m.Valid() && t.IsLogic() && Operand(rd) && rd != ZERO && b < 4
    requires m.regs[rd] == m.layout.rodata + TableOffset(t) && m.mem.slots[VAR_D].b2 == 0 == m.mem.slots[VAR_D].b3
    modifies m`regs, m`mem
    ensures m.Valid() && m.regs == old(m.regs)[TP := m.regs[TP]]
    ensures var x, y := old(m.mem.slots[VAR_A]).At(b), old(m.mem.slots[VAR_B]).At(b);
            var k := TableOffset(t) + 256 * x + y;
            && 0 <= k < RODATA_SIZE
            && var c := old(m.mem.slots[VAR_C]).With(b, m.layout.rom[k]);
            m.mem == old(m.mem).(slots := old(m.mem.slots)[VAR_D := Quad(y, x, 0, 0)][VAR_C := c])
  {
    LogicIndex(m, b);
    ghost var k := TableOffset(t) + m.regs[TP];
    m.Add(TP, rd, TP);
    m.LbuRodata(TP, TP, k);
    m.SbSlot(TP, VAR_C, b);
  }

  lemma LogicWord(l: Layout, t: Table, x: Word, y: Word)
    requires t.IsLogic()
    ensures var p, q, o := Bytes(x), Bytes(y), TableOffset(t);
            Join(Quad(l.rom[o + 256 * p.b0 + q.b0], l.rom[o + 256 * p.b1 + q.b1],
                      l.rom[o + 256 * p.b2 + q.b2], l.rom[o + 256 * p.b3 + q.b3])) == t.Op().Of(x, y)
  {
    var p, q := Bytes(x), Bytes(y);
    LogicByBytes(t.Op(), x, y);
    ReadLogicEntry(l, t, p.b0, q.b0);
    ReadLogicEntry(l, t, p.b1, q.b1);
    ReadLogicEntry(l, t, p.b2, q.b2);
    ReadLogicEntry(l, t, p.b3, q.b3);
  }

  /** The four lookups of `logic`. */
  method LogicLookups(m: Machine, t: Table, rd: nat)
    requires m.Valid() && t.IsLogic() && Operand(rd) && rd != ZERO
    requires m.regs[rd] == m.layout.rodata + TableOffset(t) && m.mem.slots[VAR_D] == Quad(0, 0, 0, 0)
    modifies m`regs, m`mem
    ensures m.Valid() && Kept(old(m.regs), m.regs, {TP}) && KeptSlots(old(m.mem), m.mem, {VAR_C, VAR_D})
    ensures var p, q, o := m.mem.slots[VAR_A], m.mem.slots[VAR_B], TableOffset(t);
            m.mem.slots[VAR_C] == Quad(m.layout.rom[o + 256 * p.b0 + q.b0], m.layout.rom[o + 256 * p.b1 + q.b1],
                                       m.layout.rom[o + 256 * p.b2 + q.b2], m.layout.rom[o + 256 * p.b3 + q.b3])
  {
    hide TableOffset;
    LogicLookup(m, t, rd, 3);
    LogicLookup(m, t, rd, 2);
    LogicLookup(m, t, rd, 1);
    LogicLookup(m, t, rd, 0);
  }

  lemma LogicTableBound(t: Table)
    requires t.IsLogic()
    ensures 0 <= TableOffset(t) < RODATA_SIZE
  {
  }

  /** The operands into slots A and B, slot D cleared, the table's address in rd. */
  method LogicSetup(m: Machine, t: Table, rd: nat, rs1: nat, rs2: nat)
    requires m.Valid() && t.IsLogic() && Operand(rd) && rd != ZERO && rs1 < 32 && rs2 < 32
    modifies m`regs, m`mem
    ensures 0 <= m.layout.rodata + TableOffset(t) < W
    ensures m.Valid() && m.regs == old(m.regs)[rd := m.layout.rodata + TableOffset(t)]
    ensures m.mem == old(m.mem).(slots := old(m.mem.slots)[VAR_A := Bytes(old(m.regs[rs1]))]
                                                          [VAR_B := Bytes(old(m.regs[rs2]))][VAR_D := Quad(0, 0, 0, 0)])
  {
    hide Bytes, TableOffset;
    m.Sw(rs1, VAR_A);
    m.Sw(rs2, VAR_B);
    LogicTableBound(t);
    m.La(rd, m.layout.rodata + TableOffset(t));
    m.ClearSlot(VAR_D);
  }

  /** and, or, xor rd, rs1, rs2; nothing is emitted for rd = x0. */
  method LogicMacro(m: Machine, t: Table, rd: nat, rs1: nat, rs2: nat)
    requires m.Valid() && t.IsLogic() && Operand(rd) && Operand(rs1) && (Operand(rs2) || rs2 == TP)
    modifies m`regs, m`mem
    ensures m.Valid() && Kept(old(m.regs), m.regs, {rd, TP})
    ensures KeptSlots(old(m.mem), m.mem, {VAR_A, VAR_B, VAR_C, VAR_D})
    ensures rd != ZERO ==>
              var x, y := old(m.regs[rs1]), old(m.regs[rs2]);
              m.regs[rd] == if t.And8? then BitAnd(x, y) else if t.Or8? then BitOr(x, y) else BitXor(x, y)
  {
    hide Bytes, Join, TableOffset;
    if rd == ZERO {
      return;
    }
    LogicSetup(m, t, rd, rs1, rs2);
    LogicLookups(m, t, rd);
    LogicWord(m.layout, t, old(m.regs[rs1]), old(m.regs[rs2]));
    m.Pop(rd, VAR_C);
  }

  // ----- immediates -----

  /** slti, sltiu: the immediate goes through tp. */
  method CompareImmediate(m: Machine, signed: bool, rd: nat, rs1: nat, imm: Word)
    requires m.Valid() && Operand(rd) && Operand(rs1)
    modifies m`regs, m`mem
    ensures m.Valid() && Kept(old(m.regs), m.regs, {rd, TP, GP})
    ensures KeptSlots(old(m.mem), m.mem, {1, 2, 3, VAR_A, VAR_C, VAR_D})
    ensures rd != ZERO ==>
              var x := old(m.regs[rs1]);
              m.regs[rd] == SetIf(if signed then LessSigned(x, imm) else LessUnsigned(x, imm))
  {
    m.La(TP, imm);
    Compare(m, signed, rd, rs1, TP);
  }

  /** andi, ori, xori. */
  method LogicImmediate(m: Machine, t: Table, rd: nat, rs1: nat, imm: Word)
    requires m.Valid() && t.IsLogic() && Operand(rd) && Operand(rs1)
    modifies m`regs, m`mem
    ensures m.Valid() && Kept(old(m.regs), m.regs, {rd, TP})
    ensures KeptSlots(old(m.mem), m.mem, {VAR_A, VAR_B, VAR_C, VAR_D})
    ensures rd != ZERO ==>
              var x := old(m.regs[rs1]);
              m.regs[rd] == if t.And8? then BitAnd(x, imm) else if t.Or8? then BitOr(x, imm) else BitXor(x, imm)
  {
    m.La(TP, imm);
    LogicMacro(m, t, rd, rs1, TP);
  }
}
