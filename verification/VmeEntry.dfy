/** Page-table entries of the two-level 32-bit tables (abstract-machine/am/src/x86/qemu/vme.c, x86.h). */
module VmeEntry {
  import opened Arithmetic
  import opened Bits

  const WORD: int := 0x1_0000_0000
  const PAGE: nat := 4096
  const ENTRIES: nat := 1024

  const PTE_P: nat := 1
  const PTE_W: nat := 2
  const PTE_U: nat := 4
  const MMAP_NONE: nat := 0
  const MMAP_WRITE: nat := 2

  type Word = x: int | 0 <= x < WORD

  /** mmu.pgtables: a one-entry level for CR3, the page directory and the page table. */
  datatype PtInfo = PtInfo(mask: Word, shift: nat, bits: nat)

  const PT_LEVELS: nat := 2

  function Level(i: nat): PtInfo
    requires i <= PT_LEVELS
  {
    if i == 0 then PtInfo(0, 0, 0) else if i == 1 then PtInfo(0xffc0_0000, 22, 10) else PtInfo(0x003f_f000, 12, 10)
  }

  function IndexOf(addr: Word, info: PtInfo): nat { Shr(BitAnd(addr, info.mask), info.shift) }

  /** addr & ~(pgsize - 1). */
  function BaseOf(e: Word): (b: Word)
    ensures b == e - e % PAGE && b % PAGE == 0
  {
    BaseOfMask(e);
    BitAnd(e, 0xffff_f000)
  }

  predicate HasFlag(e: Word, flag: nat) { BitAnd(e, flag) != 0 }

  predicate Present(e: Word) { HasFlag(e, PTE_P) }

  predicate IsUser(e: Word) { HasFlag(e, PTE_U) }

  /** Bits in the place of a page number and of flags do not meet. */
  lemma OrFlags(base: nat, f: nat)
    requires base % 8 == 0 && f < 8 && f % 2 == 0
    ensures BitOr(base, 1) == base + 1 && BitOr(base + 1, f) == base + 1 + f
  {
    var h, x := base / 8, base + 1;
    assert Pow2(3) == 8;
    OrDisjoint(h, 3, 1);
    OrZero(h);
    assert x / 2 == 4 * h && x / 2 / 2 == 2 * h && x / 2 / 2 / 2 == h && f / 2 / 2 / 2 == 0;
    OrTwoBits(h, f / 2);
  }

  lemma OrTwoBits(h: nat, g: nat)
    requires g < 4
    ensures BitOr(4 * h, g) == 4 * h + g
  {
    assert Pow2(2) == 4;
    OrDisjoint(h, 2, g);
  }

  lemma AddedFlags(base: Word, f: nat)
    requires base % PAGE == 0 && f < 8
    ensures base % 8 == 0 && base + f < WORD && (base + f) % PAGE == f && (base + f) % 2 == f % 2
  {
    var h := base / PAGE;
    assert base == PAGE * h;
    PageFlags(h, f);
  }

  lemma PageFlags(h: int, f: nat)
    requires 0 <= PAGE * h < WORD && f < 8
    ensures (PAGE * h) % 8 == 0 && PAGE * h + f < WORD && (PAGE * h + f) % PAGE == f && (PAGE * h + f) % 2 == f % 2
  {
    AddMultiple(8, 512 * h, 0);
    AddMultiple(PAGE, h, f);
    AddMultiple(2, 2048 * h, f);
  }

  lemma EntryBits(base: Word, flags: nat)
    requires base % PAGE == 0 && flags < 8 && flags % 2 == 0
    ensures var e := base + 1 + flags;
            e < WORD && BitOr(BitOr(base, PTE_P), flags) == e && e - e % PAGE == base && Present(e)
  {
    hide Present, BitOr;
    AddedFlags(base, 1 + flags);
    OrFlags(base, flags);
    FlagBits(base + 1 + flags);
  }

  /** What ptwalk stores for a new table, and init for a page: base | PTE_P | flags. */
  function EntryOf(base: Word, flags: nat): (e: Word)
    requires base % PAGE == 0 && flags < 8 && flags % 2 == 0
    ensures e == base + 1 + flags && BaseOf(e) == base && Present(e)
  {
    EntryBits(base, flags);
    BitOr(BitOr(base, PTE_P), flags)
  }

  /** What map stores for a page. */
  function PteOf(pa: Word, prot: nat): (e: Word)
    requires pa % PAGE == 0
    ensures e == pa + 5 + (if prot / 2 % 2 == 1 then 2 else 0) && Present(e)
  {
    WriteBit(prot);
    var w := if BitAnd(prot, MMAP_WRITE) != 0 then PTE_W else 0;
    AddedFlags(pa, 5 + w);
    OrFlags(pa, PTE_U);
    OrWrite(pa);
    FlagBits(pa + 5 + w);
    BitOr(BitOr(BitOr(pa, PTE_P), PTE_U), w)
  }

  /** MMAP_WRITE is the second bit. */
  lemma WriteBit(prot: nat)
    ensures BitAnd(prot, MMAP_WRITE) != 0 <==> prot / 2 % 2 == 1
  {
    AndOne(prot / 2);
    AndEven(prot, 1);
  }

  lemma OrWrite(pa: Word)
    requires pa % PAGE == 0
    ensures BitOr(pa + 5, 2) == pa + 7 && BitOr(pa + 5, 0) == pa + 5
  {
    OrZero(pa + 5);
    AddedFlags(pa, 5);
    OrSecondBit(pa / 8);
  }

  lemma OrSecondBit(h: nat)
    ensures BitOr(8 * h + 5, 2) == 8 * h + 7
  {
    hide BitOr;
    assert Pow2(1) == 2;
    OrDisjoint(2 * h + 1, 1, 1);
    OrOdd(2 * (2 * h + 1), 1);
  }

  lemma OrOdd(x: nat, y: nat)
    ensures BitOr(2 * x + 1, 2 * y) == 1 + 2 * BitOr(x, y)
  {
    assert (2 * x + 1) / 2 == x && 2 * y / 2 == y && (2 * x + 1) % 2 == 1;
  }

  lemma AndOne(e: nat)
    ensures BitAnd(e, 1) == e % 2
  {
    assert BitAnd(e / 2, 0) == 0;
  }

  lemma FlagBits(e: Word)
    ensures Present(e) <==> e % 2 == 1
    ensures IsUser(e) <==> e / 4 % 2 == 1
    ensures !Present(0) && !IsUser(0)
  {
    AndOne(e);
    AndOne(e / 4);
    assert e / 2 / 2 == e / 4;
    assert e > 0 ==> BitAnd(e, 4) == 2 * BitAnd(e / 2, 2);
    assert e / 2 > 0 ==> BitAnd(e / 2, 2) == 2 * BitAnd(e / 4, 1);
  }

  lemma EntryUser(base: Word, flags: nat)
    requires base % PAGE == 0 && flags < 8 && flags % 2 == 0
    ensures IsUser(EntryOf(base, flags)) <==> flags >= 4
  {
    AddedFlags(base, 1 + flags);
    FlagBits(EntryOf(base, flags));
    ThirdBit(base / 8, 1 + flags);
  }

  lemma ThirdBit(h: int, f: int)
    requires 0 <= f < 8
    ensures (8 * h + f) / 4 % 2 == f / 4
  {
    assert (8 * h + f) / 4 == 2 * h + f / 4;
  }

  lemma BaseOfMask(e: Word)
    ensures BitAnd(e, 0xffff_f000) == e - e % PAGE
  {
    Powers();
    AndHighMask(e, 12, 32);
    SplitUnique(e, 12, e / PAGE, e % PAGE);
  }

  lemma Powers()
    ensures Pow2(12) == PAGE && Pow2(22) == 0x40_0000 && Pow2(32) == WORD
  {
    assert Pow2(10) == 1024 && Pow2(2) == 4;
    Pow2Add(10, 2);
    Pow2Add(12, 10);
    Pow2Add(22, 10);
  }

  /** The page directory entry and the page table entry of an address. */
  function Dir(addr: Word): (k: nat)
    ensures k < ENTRIES
  {
    addr / 0x40_0000
  }

  function Slot(addr: Word): (k: nat)
    ensures k < ENTRIES
  {
    addr / PAGE % ENTRIES
  }

  lemma {:induction false} AndLow(x: nat, m: nat, n: nat)
    requires m < Pow2(n)
    ensures BitAnd(x, m) == BitAnd(Low(x, n), m)
    decreases n
  {
    if n > 0 {
      AndLow(x / 2, m / 2, n - 1);
      var l := Low(x, n);
      assert l % 2 == x % 2 && l / 2 == Low(x / 2, n - 1);
    }
  }

  /** mask and shift of every level pick the field they stand for. */
  lemma IndexOfLevels(addr: Word)
    ensures IndexOf(addr, Level(0)) == 0
    ensures IndexOf(addr, Level(1)) == Dir(addr)
    ensures IndexOf(addr, Level(2)) == Slot(addr)
  {
    Powers();
    DirIndex(addr);
    SlotIndex(addr);
  }

  lemma DirIndex(addr: Word)
    ensures Shr(BitAnd(addr, 0xffc0_0000), 22) == Dir(addr)
  {
    Powers();
    AndHighMask(addr, 22, 32);
    var h, l := addr / 0x40_0000, addr % 0x40_0000;
    SplitUnique(addr, 22, h, l);
    SplitUnique(addr - l, 22, h, 0);
  }

  lemma SlotIndex(addr: Word)
    ensures Shr(BitAnd(addr, 0x003f_f000), 12) == Slot(addr)
  {
    Powers();
    var x := addr % 0x40_0000;
    SplitUnique(addr, 22, addr / 0x40_0000, x);
    AndLow(addr, 0x003f_f000, 22);
    AndHighMask(x, 12, 22);
    var h, l := x / PAGE, x % PAGE;
    SplitUnique(x, 12, h, l);
    SplitUnique(x - l, 12, h, 0);
    SameSlot(addr);
  }

  lemma Digits(addr: int, h: int, l: int, r: int)
    requires 0 <= l < ENTRIES && 0 <= r < PAGE && addr == PAGE * (ENTRIES * h + l) + r
    ensures addr % 0x40_0000 == PAGE * l + r && (PAGE * l + r) / PAGE == l
  {
    assert addr == 0x40_0000 * h + (PAGE * l + r);
  }

  lemma SameSlot(addr: Word)
    ensures addr % 0x40_0000 / PAGE == Slot(addr)
  {
    var a, r := addr / PAGE, addr % PAGE;
    var h, l := a / ENTRIES, a % ENTRIES;
    Digits(addr, h, l, r);
  }

  /** Directory and table index together identify a page. */
  lemma SamePage(a: Word, b: Word)
    ensures Dir(a) == Dir(b) && Slot(a) == Slot(b) <==> a / PAGE == b / PAGE
  {
    assert a / 0x40_0000 == a / PAGE / ENTRIES && b / 0x40_0000 == b / PAGE / ENTRIES;
  }
}
