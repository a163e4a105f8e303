/** The eight base instructions and the byte memory the expansions run on
    (abstract-machine/tools/minirv/inst-replace.h, nemu/src/isa/riscv32/inst.c). */
module MiniRvMachine {
  import opened Arithmetic
  import opened MiniRvTables

  const ZERO: nat := 0
  const SP: nat := 2
  const GP: nat := 3
  const TP: nat := 4
  const S0: nat := 8
  const S1: nat := 9

  const VAR_A: nat := 4
  const VAR_B: nat := 5
  const VAR_C: nat := 6
  const VAR_D: nat := 7

  // Offsets in .rodata, in the order inst-replace.h emits its tables.
  const SAME_RESULT: int := 0
  const CHECK_8BIT_0: int := 8
  const SLT1: int := 264
  const SLTU1: int := 272
  const OR1: int := 280
  const LUT: int := 512
  const RODATA_SIZE: int := 512 + 3 * 0x1_0000 + 3 * 0x8000

  function TableOffset(t: Table): int
  {
    match t
    case And8 => LUT
    case Or8 => LUT + 0x1_0000
    case Xor8 => LUT + 0x2_0000
    case Sll8 => LUT + 0x3_0000
    case Srl8 => LUT + 0x3_8000
    case Sra8 => LUT + 0x4_0000
  }

  const SLT1_TABLE: seq<Byte> := [0, 1, 0, 0, 1, 1, 0, 1]
  const SLTU1_TABLE: seq<Byte> := [0, 1, 1, 1, 0, 0, 0, 1]
  const OR1_TABLE: seq<Byte> := [0, 1, 1, 1]

  /** The contents of .rodata: the small tables and, at its offset, every generated table. */
  ghost predicate IsRodata(rom: seq<Byte>)
  {
    && |rom| == RODATA_SIZE
    && rom[SAME_RESULT] == 1
    && (forall k :: SAME_RESULT < k < CHECK_8BIT_0 ==> rom[k] == 0)
    && rom[CHECK_8BIT_0] == 0
    && (forall k :: CHECK_8BIT_0 < k < SLT1 ==> rom[k] == 1)
    && rom[SLT1..SLT1 + 8] == SLT1_TABLE
    && rom[SLTU1..SLTU1 + 8] == SLTU1_TABLE
    && rom[OR1..OR1 + 4] == OR1_TABLE
    && forall t: Table, k: nat :: k < t.Length() ==> rom[TableOffset(t) + k] == TableByte(t, k)
  }

  function At(values: seq<Byte>, k: int): Byte { if 0 <= k < |values| then values[k] else 0 }

  /** The assembled .rodata, byte by byte. */
  function RodataByte(k: int): Byte
    requires 0 <= k < RODATA_SIZE
  {
    if k < CHECK_8BIT_0 then (if k == SAME_RESULT then 1 else 0)
    else if k < SLT1 then (if k == CHECK_8BIT_0 then 0 else 1)
    else if k < SLTU1 then At(SLT1_TABLE, k - SLT1)
    else if k < OR1 then At(SLTU1_TABLE, k - SLTU1)
    else if k < LUT then At(OR1_TABLE, k - OR1)
    else LutByte(k)
  }

  function LutByte(k: int): Byte
    requires LUT <= k < RODATA_SIZE
  {
    var t := if k < TableOffset(Or8) then And8
             else if k < TableOffset(Xor8) then Or8
             else if k < TableOffset(Sll8) then Xor8
             else if k < TableOffset(Srl8) then Sll8
             else if k < TableOffset(Sra8) then Srl8
             else Sra8;
    TableByte(t, k - TableOffset(t))
  }

  lemma LutHolds(t: Table, k: nat)
    requires k < t.Length()
    ensures TableOffset(t) + k < RODATA_SIZE && LutByte(TableOffset(t) + k) == TableByte(t, k)
  {
  }

  /** Such a .rodata exists. */
  lemma RodataExists() returns (rom: seq<Byte>)
    ensures IsRodata(rom)
  {
    rom := seq(RODATA_SIZE, k requires 0 <= k < RODATA_SIZE => RodataByte(k));
    forall t: Table, k: nat | k < t.Length() ensures rom[TableOffset(t) + k] == TableByte(t, k) {
      LutHolds(t, k);
    }
  }

  ghost function Rodata(): (rom: seq<Byte>)
    ensures IsRodata(rom)
  {
    assert exists rom :: IsRodata(rom) by { var r := RodataExists(); }
    var rom :| IsRodata(rom);
    rom
  }

  /** Where things are: the stack pointer, .rodata and _check_same_array, which do not overlap the 28 bytes
      below sp or each other. */
  datatype LayoutData = LayoutData(sp: int, rodata: int, rom: seq<Byte>, sameArray: int)
  {
    ghost predicate Ok()
    {
      && 28 <= sp && sp + 8 < W
      && 0 <= rodata && rodata + RODATA_SIZE <= W && IsRodata(rom)
      && 0 <= sameArray && sameArray + 256 <= W
      && (sp <= rodata || rodata + RODATA_SIZE <= sp - 28)
      && (sp <= sameArray || sameArray + 256 <= sp - 28)
      && (sameArray + 256 <= rodata || rodata + RODATA_SIZE <= sameArray)
    }

    predicate InRodata(a: int) { rodata <= a < rodata + RODATA_SIZE }

    predicate InSame(a: int) { sameArray <= a < sameArray + 256 }

    predicate InSlots(a: int) { sp - 28 <= a < sp }

    /** An address outside all scratch and table memory. */
    predicate Free(a: int) { 0 <= a < W && !InRodata(a) && !InSame(a) && !InSlots(a) }
  }

  type Layout = l: LayoutData | l.Ok() ghost witness LayoutData(0x1000, 0x10_0000, Rodata(), 0x2000)

  /** Memory: slot n is the word at sp - 4n, `same` is _check_same_array, `rest` is all other memory
      (0 where nothing is recorded). */
  datatype MemoryData = MemoryData(slots: seq<Quad>, same: seq<Byte>, rest: map<int, Byte>)

  type Memory = m: MemoryData | |m.slots| == 8 && |m.same| == 256
    witness MemoryData(seq(8, _ => Quad(0, 0, 0, 0)), seq(256, _ => 0), map[])

  type RegFile = r: seq<Word> | |r| == 32 && r[ZERO] == 0 witness seq(32, _ => 0)

  /** The slot and the byte in it that an address below sp falls into. */
  function SlotOf(l: Layout, a: int): (n: nat)
    requires l.InSlots(a)
    ensures 1 <= n <= 7 && 0 <= a - (l.sp - 4 * n) < 4
  {
    (l.sp - a + 3) / 4
  }

  function LoadByte(l: Layout, m: Memory, a: int): Byte
  {
    if l.InRodata(a) then l.rom[a - l.rodata]
    else if l.InSame(a) then m.same[a - l.sameArray]
    else if l.InSlots(a) then var n := SlotOf(l, a); m.slots[n].At(a - (l.sp - 4 * n))
    else if a in m.rest then m.rest[a] else 0
  }

  /** The four bytes lw reads. */
  function LoadQuad(l: Layout, m: Memory, a: int): Quad
  {
    Quad(LoadByte(l, m, a), LoadByte(l, m, a + 1), LoadByte(l, m, a + 2), LoadByte(l, m, a + 3))
  }

  function StoreByte(l: Layout, m: Memory, a: int, v: Byte): Memory
    requires !l.InRodata(a)
  {
    if l.InSame(a) then m.(same := m.same[a - l.sameArray := v])
    else if l.InSlots(a) then
      var n := SlotOf(l, a);
      m.(slots := m.slots[n := m.slots[n].With(a - (l.sp - 4 * n), v)])
    else m.(rest := m.rest[a := v])
  }

  lemma SlotByte(l: Layout, m: Memory, n: nat, b: nat, v: Byte)
    requires 1 <= n <= 7 && b < 4
    ensures var a := l.sp - 4 * n + b;
            && 0 <= a < W && !l.InRodata(a) && !l.InSame(a) && l.InSlots(a)
            && LoadByte(l, m, a) == m.slots[n].At(b)
            && StoreByte(l, m, a, v) == m.(slots := m.slots[n := m.slots[n].With(b, v)])
  {
    assert SlotOf(l, l.sp - 4 * n + b) == n;
  }

  lemma SlotQuad(l: Layout, m: Memory, n: nat)
    requires 1 <= n <= 7
    ensures LoadQuad(l, m, l.sp - 4 * n) == m.slots[n]
  {
    hide LoadByte, StoreByte;
    SlotByte(l, m, n, 0, 0);
    SlotByte(l, m, n, 1, 0);
    SlotByte(l, m, n, 2, 0);
    SlotByte(l, m, n, 3, 0);
  }

  /** Reading a generated table. */
  lemma ReadLogicEntry(l: Layout, t: Table, j: Byte, i: Byte)
    requires t.IsLogic()
    ensures var k := TableOffset(t) + 256 * j + i;
            0 <= k < RODATA_SIZE && l.rom[k] == LogicByte(t.Op(), j, i)
  {
    var k := 256 * j + i;
    assert k / 256 == j && k % 256 == i;
    assert l.rom[TableOffset(t) + k] == TableByte(t, k);
  }

  lemma ReadShiftByte(l: Layout, t: Table, j: nat, i: Byte, b: nat)
    requires !t.IsLogic() && j < 32 && b < 4
    ensures var k := TableOffset(t) + 1024 * j + 4 * i + b;
            0 <= k < RODATA_SIZE && l.rom[k] == Bytes(ShiftEntry(t, j, i)).At(b)
  {
    var k := 1024 * j + 4 * i + b;
    assert k / 1024 == j && k / 4 == 256 * j + i && k / 4 % 256 == i && k % 4 == b;
    assert l.rom[TableOffset(t) + k] == TableByte(t, k);
  }

  lemma ReadShiftEntry(l: Layout, t: Table, j: nat, i: Byte)
    requires !t.IsLogic() && j < 32
    ensures var k := TableOffset(t) + 1024 * j + 4 * i;
            && 0 <= k && k + 4 <= RODATA_SIZE
            && Quad(l.rom[k], l.rom[k + 1], l.rom[k + 2], l.rom[k + 3]) == Bytes(ShiftEntry(t, j, i))
  {
    ReadShiftByte(l, t, j, i, 0);
    ReadShiftByte(l, t, j, i, 1);
    ReadShiftByte(l, t, j, i, 2);
    ReadShiftByte(l, t, j, i, 3);
  }

  /** A load of byte v, region by region. */
  ghost predicate ReadsByte(l: Layout, m: Memory, a: int, v: Byte)
  {
    && (l.InRodata(a) ==> v == l.rom[a - l.rodata])
    && (l.InSame(a) ==> v == m.same[a - l.sameArray])
    && (l.InSlots(a) ==> v == var n := SlotOf(l, a); m.slots[n].At(a - (l.sp - 4 * n)))
    && (l.Free(a) ==> v == if a in m.rest then m.rest[a] else 0)
  }

  lemma SlotReads(l: Layout, m: Memory, n: nat, b: nat, v: Byte)
    requires 1 <= n <= 7 && b < 4
    ensures var a := l.sp + (-4 * n + b); a % W == a && (ReadsByte(l, m, a, v) ==> v == m.slots[n].At(b))
  {
    assert SlotOf(l, l.sp - 4 * n + b) == n;
  }

  /** A load of the word q: from a scratch slot, from .rodata, or from memory outside both. */
  ghost predicate ReadsWord(l: Layout, m: Memory, a: int, q: Quad)
  {
    && (forall n: nat :: 1 <= n <= 7 && a == l.sp - 4 * n ==> q == m.slots[n])
    && (l.InRodata(a) && l.InRodata(a + 3) ==>
          var k := a - l.rodata; q == Quad(l.rom[k], l.rom[k + 1], l.rom[k + 2], l.rom[k + 3]))
    && (l.Free(a) && l.Free(a + 1) && l.Free(a + 2) && l.Free(a + 3) ==>
          q == LoadQuad(l, m, a))
  }

  lemma RomByte(l: Layout, m: Memory, k: int, v: Byte)
    requires 0 <= k < RODATA_SIZE && ReadsByte(l, m, (l.rodata + k) % W, v)
    ensures v == l.rom[k]
  {
    SmallMod(W, l.rodata + k);
  }

  lemma SlotWord(l: Layout, m: Memory, n: nat, q: Quad)
    requires 1 <= n <= 7 && ReadsWord(l, m, (l.sp - 4 * n) % W, q)
    ensures q == m.slots[n]
  {
    SmallMod(W, l.sp - 4 * n);
  }

  lemma LoadQuadReads(l: Layout, m: Memory, a: int)
    ensures ReadsWord(l, m, a, LoadQuad(l, m, a))
  {
    forall n: nat | 1 <= n <= 7 && a == l.sp - 4 * n ensures LoadQuad(l, m, a) == m.slots[n] {
      SlotQuad(l, m, n);
    }
  }

  /** %hi and %lo add up. */
  lemma HiLo(address: Word, hi: int, lo: int)
    requires hi == (address + 0x800) / 4096 * 4096 % W
    requires lo == if address % 4096 >= 2048 then address % 4096 - 4096 else address % 4096
    ensures hi % 4096 == 0 && (hi + lo) % W == address
  {
    var t := (address + 0x800) / 4096;
    assert 4096 * t + lo == address;
    if t == 0x10_0000 { assert hi == 0; } else { assert hi == 4096 * t; }
  }

  /** A register write; x0 stays 0. */
  function Write(regs: RegFile, rd: nat, v: Word): RegFile
    requires rd < 32
  {
    if rd == ZERO then regs else regs[rd := v]
  }

  /** Registers outside `changed` keep their values. */
  ghost predicate Kept(before: RegFile, after: RegFile, changed: set<nat>)
  {
    forall i: nat :: i < 32 && i !in changed ==> after[i] == before[i]
  }

  /** Memory outside the given scratch slots keeps its contents. */
  ghost predicate KeptSlots(before: Memory, after: Memory, changed: set<nat>)
  {
    && after.same == before.same && after.rest == before.rest
    && forall n: nat :: n < 8 && n !in changed ==> after.slots[n] == before.slots[n]
  }

  /** A general operand of an expansion: the compiler does not use tp and gp, and sp is not passed. */
  predicate Operand(r: nat) { r < 32 && r != SP && r != GP && r != TP }

  class Machine {
    const layout: Layout
    var regs: RegFile
    var mem: Memory
    var pc: Word

    constructor (layout: Layout, regs: RegFile, mem: Memory, pc: Word)
      requires regs[SP] == layout.sp
      ensures Valid() && this.layout == layout && this.regs == regs && this.mem == mem && this.pc == pc
    {
      this.layout, this.regs, this.mem, this.pc := layout, regs, mem, pc;
    }

    ghost predicate Valid()
      reads this
    {
      regs[SP] == layout.sp
    }

    // ----- base instructions -----

    method Add(rd: nat, rs1: nat, rs2: nat)
      requires Valid() && rd < 32 && rs1 < 32 && rs2 < 32 && rd != SP
      modifies this`regs
      ensures Valid() && regs == Write(old(regs), rd, AddWord(old(regs[rs1]), old(regs[rs2])))
    {
      regs := Write(regs, rd, AddWord(regs[rs1], regs[rs2]));
    }

    method Addi(rd: nat, rs1: nat, imm: int)
      requires Valid() && rd < 32 && rs1 < 32 && rd != SP && -2048 <= imm < 2048
      modifies this`regs
      ensures Valid() && regs == Write(old(regs), rd, (old(regs[rs1]) + imm) % W)
    {
      regs := Write(regs, rd, (regs[rs1] + imm) % W);
    }

    method Lui(rd: nat, imm: Word)
      requires Valid() && rd < 32 && rd != SP && imm % 4096 == 0
      modifies this`regs
      ensures Valid() && regs == Write(old(regs), rd, imm)
    {
      regs := Write(regs, rd, imm);
    }

    method Lbu(rd: nat, base: nat, offset: int) returns (ghost v: Byte)
      requires Valid() && rd < 32 && base < 32 && rd != SP
      modifies this`regs
      ensures Valid() && regs == Write(old(regs), rd, v) && ReadsByte(layout, mem, (old(regs[base]) + offset) % W, v)
    {
      var x := LoadByte(layout, mem, (regs[base] + offset) % W);
      v := x;
      regs := Write(regs, rd, x);
    }

    /** lw, whose four bytes are loads like lbu's. */
    method Lw(rd: nat, base: nat, offset: int) returns (ghost q: Quad)
      requires Valid() && rd < 32 && base < 32 && rd != SP
      modifies this`regs
      ensures Valid() && regs == Write(old(regs), rd, Join(q))
      ensures ReadsWord(layout, mem, (old(regs[base]) + offset) % W, q)
    {
      var r := LoadQuad(layout, mem, (regs[base] + offset) % W);
      q := r;
      LoadQuadReads(layout, mem, (regs[base] + offset) % W);
      regs := Write(regs, rd, Join(r));
    }

    method Sb(rs: nat, base: nat, offset: int)
      requires Valid() && rs < 32 && base < 32 && !layout.InRodata((regs[base] + offset) % W)
      modifies this`mem
      ensures Valid() && mem == StoreByte(layout, old(mem), (regs[base] + offset) % W, LowByte(regs[rs]))
    {
      mem := StoreByte(layout, mem, (regs[base] + offset) % W, LowByte(regs[rs]));
    }

    /** sw, four stores like sb's; the expansions only use it on the slots below sp. */
    method Sw(rs: nat, n: nat)
      requires Valid() && rs < 32 && 1 <= n <= 7
      modifies this`mem
      ensures Valid() && mem == old(mem).(slots := old(mem.slots)[n := Bytes(regs[rs])])
    {
      hide StoreByte, Bytes;
      var a, q := (regs[SP] + -4 * n) % W, Bytes(regs[rs]);
      SlotByte(layout, mem, n, 0, q.b0);
      mem := StoreByte(layout, mem, a, q.b0);
      SlotByte(layout, mem, n, 1, q.b1);
      mem := StoreByte(layout, mem, a + 1, q.b1);
      SlotByte(layout, mem, n, 2, q.b2);
      mem := StoreByte(layout, mem, a + 2, q.b2);
      SlotByte(layout, mem, n, 3, q.b3);
      mem := StoreByte(layout, mem, a + 3, q.b3);
      assert mem.slots == old(mem.slots)[n := q];
    }

    method Jalr(rd: nat, rs1: nat)
      requires Valid() && rd < 32 && rs1 < 32 && rd != SP
      modifies this`regs, this`pc
      ensures Valid() && pc == old(regs[rs1]) / 2 * 2 && regs == Write(old(regs), rd, (old(pc) + 4) % W)
    {
      var t := regs[rs1];
      regs := Write(regs, rd, (pc + 4) % W);
      pc := t / 2 * 2;
    }

    // ----- accesses to the scratch slots below sp -----

    /** sw x0 to SP_VAR(n). */
    method ClearSlot(n: nat)
      requires Valid() && 1 <= n <= 7
      modifies this`mem
      ensures Valid() && mem == old(mem).(slots := old(mem.slots)[n := Quad(0, 0, 0, 0)])
    {
      Sw(ZERO, n);
      BytesOfJoin(Quad(0, 0, 0, 0));
    }

    /** lw through a pointer to a slot. */
    method LwSlot(rd: nat, base: nat, offset: int, ghost n: nat)
      requires Valid() && rd < 32 && base < 32 && rd != SP && 1 <= n <= 7 && regs[base] + offset == layout.sp - 4 * n
      modifies this`regs
      ensures Valid() && regs == Write(old(regs), rd, Join(mem.slots[n]))
    {
      hide ReadsWord, Join;
      var q := Lw(rd, base, offset);
      SlotWord(layout, mem, n, q);
    }

    /** POP, and lw from SP_VAR(n). */
    method Pop(rd: nat, n: nat)
      requires Valid() && rd < 32 && rd != SP && 1 <= n <= 7
      modifies this`regs
      ensures Valid() && regs == Write(old(regs), rd, Join(mem.slots[n]))
    {
      LwSlot(rd, SP, -4 * n, n);
    }

    /** sb to SP_VAR_BYTE(n, b). */
    method SbSlot(rs: nat, n: nat, b: nat)
      requires Valid() && rs < 32 && 1 <= n <= 7 && b < 4
      modifies this`mem
      ensures Valid() && mem == old(mem).(slots := old(mem.slots)[n := old(mem.slots[n]).With(b, LowByte(regs[rs]))])
    {
      hide StoreByte, LowByte;
      SlotByte(layout, mem, n, b, LowByte(regs[rs]));
      SmallMod(W, layout.sp - 4 * n + b);
      Sb(rs, SP, -4 * n + b);
    }

    /** lbu from SP_VAR_BYTE(n, b). */
    method LbuSlot(rd: nat, n: nat, b: nat)
      requires Valid() && rd < 32 && rd != SP && 1 <= n <= 7 && b < 4
      modifies this`regs
      ensures Valid() && regs == Write(old(regs), rd, mem.slots[n].At(b))
    {
      var v := Lbu(rd, SP, -4 * n + b);
      SlotReads(layout, mem, n, b, v);
    }

    /** lbu through a pointer into .rodata. */
    method LbuRodata(rd: nat, base: nat, ghost k: int)
      requires Valid() && rd < 32 && base < 32 && rd != SP && 0 <= k < RODATA_SIZE && regs[base] == layout.rodata + k
      modifies this`regs
      ensures Valid() && regs == Write(old(regs), rd, layout.rom[k])
    {
      hide ReadsByte;
      var v := Lbu(rd, base, 0);
      RomByte(layout, mem, k, v);
    }

    /** la: the upper 20 bits, rounded, plus the sign-extended lower 12. */
    method La(rd: nat, address: Word)
      requires Valid() && 0 < rd < 32 && rd != SP
      modifies this`regs
      ensures Valid() && regs == Write(old(regs), rd, address)
    {
      var hi := (address + 0x800) / 4096 * 4096 % W;
      var lo := if address % 4096 >= 2048 then address % 4096 - 4096 else address % 4096;
      HiLo(address, hi, lo);
      Lui(rd, hi);
      Addi(rd, rd, lo);
    }
  }
}
