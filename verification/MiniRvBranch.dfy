/** Expansions of the conditional branches (abstract-machine/tools/minirv/inst-replace.h). */
module MiniRvBranch {
  import opened MiniRvTables
  import opened MiniRvMachine
  import opened MiniRvArith

  /** Memory outside the given scratch slots and _check_same_array keeps its contents. */
  ghost predicate KeptMost(before: Memory, after: Memory, changed: set<nat>)
  {
    && after.rest == before.rest
    && forall n: nat :: n < 8 && n !in changed ==> after.slots[n] == before.slots[n]
  }

  // ----- seqz -----

  /** check_8bit_0: rd := 0 if byte b of slot A is 0, otherwise 1. */
  method CheckZero(m: Machine, rd: nat, b: nat)
    requires m.Valid() && 0 < rd < 32 && rd != SP && rd != S0 && b < 4 && m.regs[S0] == m.layout.rodata + CHECK_8BIT_0
    modifies m`regs
    ensures m.Valid() && m.regs == old(m.regs)[rd := if m.mem.slots[VAR_A].At(b) == 0 then 0 else 1]
  {
    m.LbuSlot(rd, VAR_A, b);
    ghost var k := CHECK_8BIT_0 + m.regs[rd];
    m.Add(rd, S0, rd);
    m.LbuRodata(rd, rd, k);
  }

  /** gp := the number of nonzero bytes of slot A. */
  method CountNonzero(m: Machine)
    requires m.Valid() && m.regs[S0] == m.layout.rodata + CHECK_8BIT_0
    modifies m`regs
    ensures m.Valid() && Kept(old(m.regs), m.regs, {GP, TP})
    ensures 0 <= m.regs[GP] <= 4 && (m.regs[GP] == 0 <==> m.mem.slots[VAR_A] == Quad(0, 0, 0, 0))
  {
    CheckZero(m, GP, 0);
    CheckZero(m, TP, 1);
    m.Add(GP, GP, TP);
    CheckZero(m, TP, 2);
    m.Add(GP, GP, TP);
    CheckZero(m, TP, 3);
    m.Add(GP, GP, TP);
  }

  /** rd := _same_result_table[gp]: 1 if gp is 0. */
  method SameResult(m: Machine, rd: nat)
    requires m.Valid() && m.regs[GP] < 8 && (Operand(rd) || rd == TP)
    modifies m`regs
    ensures var k := old(m.regs[GP]);
            m.Valid() && m.regs == Write(old(m.regs)[TP := m.layout.rodata + k], rd, SetIf(k == 0))
  {
    m.La(TP, m.layout.rodata + SAME_RESULT);
    ghost var k := SAME_RESULT + m.regs[GP];
    m.Add(TP, TP, GP);
    m.LbuRodata(rd, TP, k);
  }

  lemma ZeroBytes(x: Word)
    ensures Bytes(x) == Quad(0, 0, 0, 0) <==> x == 0
  {
    BytesDigits(x);
    assert x == Join(Bytes(x));
  }

  /** seqz rd, rs1: rd is written before s0 is restored, so that for rd = s0 the result is lost. */
  method Seqz(m: Machine, rd: nat, rs1: nat)
    requires m.Valid() && Operand(rs1) && (Operand(rd) || rd == TP)
    modifies m`regs, m`mem
    ensures m.Valid() && KeptSlots(old(m.mem), m.mem, {1, VAR_A})
    ensures Kept(old(m.regs), m.regs, if rd == S0 then {TP, GP} else {rd, TP, GP})
    ensures rd != ZERO && rd != S0 ==> m.regs[rd] == SetIf(old(m.regs[rs1]) == 0)
  {
    hide Join, Bytes;
    m.Sw(rs1, VAR_A);
    m.Sw(S0, 1);
    m.La(S0, m.layout.rodata + CHECK_8BIT_0);
    ZeroBytes(old(m.regs[rs1]));
    CountNonzero(m);
    SameResult(m, rd);
    m.Pop(S0, 1);
  }

  // ----- seq -----

  /** sb and lbu through a pointer into _check_same_array. */
  method SbSame(m: Machine, rs: nat, base: nat, ghost i: int)
    requires m.Valid() && rs < 32 && base < 32 && 0 <= i < 256 && m.regs[base] == m.layout.sameArray + i
    modifies m`mem
    ensures m.Valid() && m.mem == old(m.mem).(same := old(m.mem.same)[i := LowByte(m.regs[rs])])
  {
    m.Sb(rs, base, 0);
  }

  method LbuSame(m: Machine, rd: nat, base: nat, ghost i: int)
    requires m.Valid() && rd < 32 && base < 32 && rd != SP && 0 <= i < 256 && m.regs[base] == m.layout.sameArray + i
    modifies m`regs
    ensures m.Valid() && m.regs == Write(old(m.regs), rd, m.mem.same[i])
  {
    var v := m.Lbu(rd, base, 0);
  }

  /** check_8bit_same: a 1 is stored at the index of the first byte, then a 0 at that of the second; what the
      first index reads back is 0 exactly if the bytes are equal. */
  method CheckSame(m: Machine, rd: nat, b: nat)
    requires m.Valid() && (rd == GP || rd == S1) && b < 4 && m.regs[S0] == m.layout.sameArray
    modifies m`regs, m`mem
    ensures m.Valid() && m.mem.slots == old(m.mem.slots) && m.mem.rest == old(m.mem.rest)
    ensures m.regs == old(m.regs)[TP := m.regs[TP]]
                                 [rd := if m.mem.slots[VAR_A].At(b) == m.mem.slots[VAR_B].At(b) then 0 else 1]
  {
    ghost var x, y := m.mem.slots[VAR_A].At(b), m.mem.slots[VAR_B].At(b);
    m.LbuSlot(rd, VAR_A, b);
    m.Add(TP, S0, rd);
    m.Addi(rd, ZERO, 1);
    SbSame(m, rd, TP, x);
    m.LbuSlot(rd, VAR_B, b);
    m.Add(rd, S0, rd);
    SbSame(m, ZERO, rd, y);
    LbuSame(m, rd, TP, x);
  }

  /** gp := the number of bytes in which slots A and B differ. */
  method CountDifferent(m: Machine)
    requires m.Valid() && m.regs[S0] == m.layout.sameArray
    modifies m`regs, m`mem
    ensures m.Valid() && Kept(old(m.regs), m.regs, {GP, TP, S1}) && KeptMost(old(m.mem), m.mem, {})
    ensures 0 <= m.regs[GP] <= 4 && (m.regs[GP] == 0 <==> m.mem.slots[VAR_A] == m.mem.slots[VAR_B])
  {
    CheckSame(m, GP, 0);
    CheckSame(m, S1, 1);
    m.Add(GP, GP, S1);
    CheckSame(m, S1, 2);
    m.Add(GP, GP, S1);
    CheckSame(m, S1, 3);
    m.Add(GP, GP, S1);
  }

  /** seq rd, rs1, rs2: for rd = s0 and rd = s1 the result is lost. */
  method Seq(m: Machine, rd: nat, rs1: nat, rs2: nat)
    requires m.Valid() && Operand(rs1) && Operand(rs2) && (Operand(rd) || rd == TP)
    modifies m`regs, m`mem
    ensures m.Valid() && KeptMost(old(m.mem), m.mem, {1, 2, VAR_A, VAR_B})
    ensures Kept(old(m.regs), m.regs, if rd == S0 || rd == S1 then {TP, GP} else {rd, TP, GP})
    ensures rd != ZERO && rd != S0 && rd != S1 ==> m.regs[rd] == SetIf(old(m.regs[rs1]) == old(m.regs[rs2]))
  {
    hide Join, Bytes;
    m.Sw(rs1, VAR_A);
    m.Sw(rs2, VAR_B);
    m.Sw(S0, 1);
    m.Sw(S1, 2);
    m.La(S0, m.layout.sameArray);
    CountDifferent(m);
    SameResult(m, rd);
    m.Pop(S1, 2);
    m.Pop(S0, 1);
  }

  // ----- the branches -----

  /** tp := sp + 4 * tp. */
  method PointPastSlot(m: Machine)
    requires m.Valid() && 0 <= m.regs[TP] <= 1
    modifies m`regs
    ensures m.Valid() && m.regs == old(m.regs)[TP := m.layout.sp + 4 * old(m.regs[TP])]
  {
    Slli1(m, TP);
    Slli1(m, TP);
    m.Add(TP, SP, TP);
  }

  /** Slots A and B := the two addresses. */
  method SaveAddresses(m: Machine, higher: Word, lower: Word)
    requires m.Valid()
    modifies m`regs, m`mem
    ensures m.Valid() && m.regs == old(m.regs)[GP := lower]
    ensures m.mem == old(m.mem).(slots := old(m.mem.slots)[VAR_A := Bytes(higher)][VAR_B := Bytes(lower)])
  {
    m.La(GP, higher);
    m.Sw(GP, VAR_A);
    m.La(GP, lower);
    m.Sw(GP, VAR_B);
  }

  /** branch_resolve: tp, 0 or 1, selects the lower or the higher of two saved addresses. */
  method BranchResolve(m: Machine, target: Word, next: Word, high: bool)
    requires m.Valid() && 0 <= m.regs[TP] <= 1 && target % 2 == 0 && next % 2 == 0
    modifies m`regs, m`mem, m`pc
    ensures m.Valid() && Kept(old(m.regs), m.regs, {TP, GP}) && KeptSlots(old(m.mem), m.mem, {VAR_A, VAR_B})
    ensures m.pc == if (old(m.regs[TP]) == 1) == high then target else next
  {
    ghost var c := m.regs[TP];
    PointPastSlot(m);
    SaveAddresses(m, if high then target else next, if high then next else target);
    m.LwSlot(TP, TP, -4 * VAR_B, if c == 1 then VAR_A else VAR_B);
    m.Jalr(ZERO, TP);
  }

  /** beq, bne: through seqz if one operand is x0, otherwise through seq. */
  method BranchEqual(m: Machine, equal: bool, rs1: nat, rs2: nat, target: Word, next: Word)
    requires m.Valid() && Operand(rs1) && Operand(rs2) && target % 2 == 0 && next % 2 == 0
    modifies m`regs, m`mem, m`pc
    ensures m.Valid() && Kept(old(m.regs), m.regs, {TP, GP})
    ensures KeptMost(old(m.mem), m.mem, {1, 2, VAR_A, VAR_B})
    ensures m.pc == if (old(m.regs[rs1]) == old(m.regs[rs2])) == equal then target else next
  {
    if rs2 == ZERO {
      Seqz(m, TP, rs1);
    } else if rs1 == ZERO {
      Seqz(m, TP, rs2);
    } else {
      Seq(m, TP, rs1, rs2);
    }
    BranchResolve(m, target, next, equal);
  }

  /** tp := 1 if rs2 <= 0 as a signed number: its sign, or that of its predecessor. */
  method NotPositive(m: Machine, rs2: nat)
    requires m.Valid() && Operand(rs2)
    modifies m`regs, m`mem
    ensures m.Valid() && Kept(old(m.regs), m.regs, {TP, GP}) && KeptSlots(old(m.mem), m.mem, {VAR_C})
    ensures m.regs[TP] == SetIf(ToSigned(old(m.regs[rs2])) <= 0)
  {
    Msb(m, GP, rs2);
    m.Addi(TP, rs2, -1);
    Msb(m, TP, TP);
    m.Add(GP, GP, TP);
    m.La(TP, m.layout.rodata + OR1);
    ghost var k := OR1 + m.regs[GP];
    m.Add(TP, GP, TP);
    OrEntry(m.layout, m.regs[GP]);
    m.LbuRodata(TP, TP, k);
  }

  lemma OrEntry(l: Layout, k: nat)
    requires k < 4
    ensures l.rom[OR1 + k] == if k == 0 then 0 else 1
  {
    assert l.rom[OR1..OR1 + 4][k] == l.rom[OR1 + k];
  }

  /** blt and bge, with their short forms for an x0 operand. */
  method BranchLess(m: Machine, less: bool, rs1: nat, rs2: nat, target: Word, next: Word)
    requires m.Valid() && Operand(rs1) && Operand(rs2) && target % 2 == 0 && next % 2 == 0
    modifies m`regs, m`mem, m`pc
    ensures m.Valid() && Kept(old(m.regs), m.regs, {TP, GP})
    ensures KeptSlots(old(m.mem), m.mem, {1, 2, 3, VAR_A, VAR_B, VAR_C, VAR_D})
    ensures m.pc == if LessSigned(old(m.regs[rs1]), old(m.regs[rs2])) == less then target else next
  {
    if less && rs2 == ZERO {
      Msb(m, TP, rs1);
      BranchResolve(m, target, next, less);
    } else if rs1 == ZERO {
      NotPositive(m, rs2);
      BranchResolve(m, target, next, !less);
    } else {
      Slt(m, TP, rs1, rs2);
      BranchResolve(m, target, next, less);
    }
  }

  /** bltu and bgeu. */
  method BranchLessUnsigned(m: Machine, less: bool, rs1: nat, rs2: nat, target: Word, next: Word)
    requires m.Valid() && Operand(rs1) && Operand(rs2) && target % 2 == 0 && next % 2 == 0
    modifies m`regs, m`mem, m`pc
    ensures m.Valid() && Kept(old(m.regs), m.regs, {TP, GP})
    ensures KeptSlots(old(m.mem), m.mem, {1, 2, 3, VAR_A, VAR_B, VAR_C, VAR_D})
    ensures m.pc == if LessUnsigned(old(m.regs[rs1]), old(m.regs[rs2])) == less then target else next
  {
    Sltu(m, TP, rs1, rs2);
    BranchResolve(m, target, next, less);
  }
}
