/** Leading and trailing zero counts (__clzsi2, __ctzsi2, __clzdi2, __ctzdi2 in abstract-machine/klib/src/int64.c). */
module Int64Bits {
  import opened Arithmetic
  import opened Bits

  const W32: nat := 0x1_0000_0000
  const W64: nat := 0x1_0000_0000_0000_0000

  lemma WordSizes()
    ensures Pow2(32) == W32 && Pow2(64) == W64 && Pow2(31) == W32 / 2 && Pow2(63) == W64 / 2
    ensures Pow2(16) == 0x1_0000 && Pow2(8) == 0x100 && Pow2(4) == 16 && Pow2(2) == 4 && Pow2(1) == 2
  {
    hide Pow2;
    SmallPowers();
    Pow2Add(4, 4);
    Pow2Add(8, 8);
    Pow2Add(16, 16);
    Pow2Double(31);
    Pow2Add(32, 32);
    Pow2Double(63);
  }

  lemma SmallPowers()
    ensures Pow2(4) == 16 && Pow2(2) == 4 && Pow2(1) == 2
  {
  }

  /** The number of zero bits above the highest set bit of an n-bit word; n for zero. */
  ghost predicate IsClz(a: nat, n: nat, c: nat)
  {
    if a == 0 then c == n else c < n && Pow2(n - 1 - c) <= a < Pow2(n - c)
  }

  /** The number of zero bits below the lowest set bit of an n-bit word; n for zero. */
  ghost predicate IsCtz(a: nat, n: nat, c: nat)
  {
    if a == 0 then c == n else c < n && Low(a, c + 1) == Pow2(c)
  }

  lemma OnesKeep(x: nat)
    requires x < W32
    ensures BitAnd(x, W32 - 1) == x
  {
    WordSizes();
    AndMask(x, 32);
    LowSmall(x, 32);
  }

  // ----- leading zeros -----

  /** The shift a step makes: h if the bits selected by the mask are zero, otherwise 0. */
  predicate Tested(x: nat, h: nat, mask: nat, t: nat) { t == if BitAnd(x, mask) == 0 then h else 0 }

  /** A mask of the upper h of 2h bits tests whether x fits the lower h. */
  lemma HighMaskTest(x: nat, h: nat, mask: nat, t: nat)
    requires x < Pow2(2 * h) && mask == Pow2(2 * h) - Pow2(h) && Tested(x, h, mask, t)
    ensures t == if x < Pow2(h) then h else 0
  {
    AndHighMask(x, h, 2 * h);
    Split(x, h);
    if x < Pow2(h) { LowSmall(x, h); }
  }

  lemma UpperHalf(x: nat, h: nat)
    requires Pow2(h) <= x < Pow2(2 * h)
    ensures 1 <= Shr(x, h) < Pow2(h)
  {
    var q, y := Pow2(h), Shr(x, h);
    Split(x, h);
    Pow2Add(h, h);
    if y >= q { MulMonotone(q, q, y); }
  }

  /** One step of __clzsi2: the lower half is dropped, or h zeros are counted; what remains fits h bits. */
  lemma ClzStep(x: nat, h: nat, mask: nat, t: nat)
    requires x < Pow2(2 * h) && mask == Pow2(2 * h) - Pow2(h) && Tested(x, h, mask, t)
    ensures t <= h && Shr(x, h - t) < Pow2(h)
  {
    HighMaskTest(x, h, mask, t);
    if x >= Pow2(h) { UpperHalf(x, h); }
  }

  /** ... and holds the leading zeros that remain to be counted. */
  lemma ClzCount(x: nat, h: nat, mask: nat, t: nat, c: nat)
    requires x < Pow2(2 * h) && mask == Pow2(2 * h) - Pow2(h) && Tested(x, h, mask, t) && t <= h
    requires IsClz(Shr(x, h - t), h, c)
    ensures IsClz(x, 2 * h, t + c)
  {
    HighMaskTest(x, h, mask, t);
    if x >= Pow2(h) {
      UpperHalf(x, h);
      ClzShifted(x, h, c);
    }
  }

  lemma ClzShifted(x: nat, h: nat, c: nat)
    requires Shr(x, h) > 0 && IsClz(Shr(x, h), h, c)
    ensures IsClz(x, 2 * h, c)
  {
    var q, y := Pow2(h), Shr(x, h);
    Split(x, h);
    Pow2Add(h, h - 1 - c);
    Pow2Add(h, h - c);
    MulMonotone(q, Pow2(h - 1 - c), y);
    MulMonotone(q, y + 1, Pow2(h - c));
    MulAdd(q, y, 1);
  }

  /** __clzsi2. Each stage leaves a narrower x whose leading zeros are still to be added: "return r + clz(x)". */
  method Clzsi2(a: nat) returns (c: nat)
    requires a < W32
    ensures IsClz(a, 32, c) && c <= 32
  {
    WordSizes();
    var t := if BitAnd(a, 0xFFFF_0000) == 0 then 16 else 0;
    ClzStep(a, 16, 0xFFFF_0000, t);
    var r := Clz16(Shr(a, 16 - t));
    c := t + r;
    ClzCount(a, 16, 0xFFFF_0000, t, r);
  }

  method Clz16(x: nat) returns (c: nat)
    requires x < 0x1_0000
    ensures IsClz(x, 16, c)
  {
    WordSizes();
    var t := if BitAnd(x, 0xFF00) == 0 then 8 else 0;
    ClzStep(x, 8, 0xFF00, t);
    var r := Clz8(Shr(x, 8 - t));
    c := t + r;
    ClzCount(x, 8, 0xFF00, t, r);
  }

  method Clz8(x: nat) returns (c: nat)
    requires x < 0x100
    ensures IsClz(x, 8, c)
  {
    WordSizes();
    var t := if BitAnd(x, 0xF0) == 0 then 4 else 0;
    ClzStep(x, 4, 0xF0, t);
    var r := Clz4(Shr(x, 4 - t));
    c := t + r;
    ClzCount(x, 4, 0xF0, t, r);
  }

  method Clz4(x: nat) returns (c: nat)
    requires x < 16
    ensures IsClz(x, 4, c)
  {
    WordSizes();
    var t := if BitAnd(x, 0xC) == 0 then 2 else 0;
    ClzStep(x, 2, 0xC, t);
    var r := Clz2(Shr(x, 2 - t));
    c := t + r;
    ClzCount(x, 2, 0xC, t, r);
  }

  method Clz2(x: nat) returns (c: nat)
    requires x < 4
    ensures IsClz(x, 2, c)
  {
    ClzLastBits(x);
    c := BitAnd((W32 + 2 - x) % W32, if BitAnd(x, 2) == 0 then W32 - 1 else 0);
  }

  /** The branch-free last step of __clzsi2 on two bits. */
  lemma ClzLastBits(x: nat)
    requires x < 4
    ensures IsClz(x, 2, BitAnd((W32 + 2 - x) % W32, if BitAnd(x, 2) == 0 then W32 - 1 else 0))
  {
    assert BitAnd(x, 2) == if x < 2 then 0 else 2;
    if x < 2 {
      assert (W32 + 2 - x) % W32 == 2 - x;
      OnesKeep(2 - x);
    }
    assert Pow2(0) == 1 && Pow2(1) == 2 && Pow2(2) == 4;
  }

  // ----- trailing zeros -----

  /** One step of __ctzsi2: if the lowest h bits are all zero they are counted and dropped; what remains
      has a set bit among its lowest h. */
  lemma CtzStep(x: nat, h: nat, mask: nat, t: nat)
    requires mask == Pow2(h) - 1 && Tested(x, h, mask, t) && (x == 0 || Low(x, 2 * h) != 0)
    ensures Shr(x, t) == 0 <==> x == 0
    ensures x == 0 || Low(Shr(x, t), h) != 0
  {
    if x == 0 { LowSmall(0, t); }
    if Low(Shr(x, t), h) != 0 { NonzeroLow(Shr(x, t), h); }
    AndMask(x, h);
    ShrShr(x, h, h);
    if t == h { assert Pow2(h) * 0 == 0; }
  }

  lemma NonzeroLow(x: nat, k: nat)
    requires Low(x, k) != 0
    ensures x > 0
  {
    if x == 0 { LowSmall(0, k); }
  }

  lemma CtzCount(x: nat, h: nat, mask: nat, t: nat, c: nat)
    requires mask == Pow2(h) - 1 && Tested(x, h, mask, t)
    requires (Shr(x, t) == 0 <==> x == 0) && IsCtz(Shr(x, t), h, c)
    ensures IsCtz(x, 2 * h, t + c)
  {
    AndMask(x, h);
    if t == h {
      ShrShr(x, h, c + 1);
      Pow2Add(h, c);
    }
  }

  /** __ctzsi2. Each stage leaves an x whose trailing zeros are still to be added. */
  method Ctzsi2(a: nat) returns (c: nat)
    requires a < W32
    ensures IsCtz(a, 32, c) && c <= 32
  {
    WordSizes();
    LowSmall(a, 32);
    var t := if BitAnd(a, 0xFFFF) == 0 then 16 else 0;
    CtzStep(a, 16, 0xFFFF, t);
    var r := Ctz16(Shr(a, t));
    c := t + r;
    CtzCount(a, 16, 0xFFFF, t, r);
  }

  method Ctz16(x: nat) returns (c: nat)
    requires x == 0 || Low(x, 16) != 0
    ensures IsCtz(x, 16, c)
  {
    WordSizes();
    var t := if BitAnd(x, 0xFF) == 0 then 8 else 0;
    CtzStep(x, 8, 0xFF, t);
    var r := Ctz8(Shr(x, t));
    c := t + r;
    CtzCount(x, 8, 0xFF, t, r);
  }

  method Ctz8(x: nat) returns (c: nat)
    requires x == 0 || Low(x, 8) != 0
    ensures IsCtz(x, 8, c)
  {
    WordSizes();
    var t := if BitAnd(x, 0xF) == 0 then 4 else 0;
    CtzStep(x, 4, 0xF, t);
    var r := Ctz4(Shr(x, t));
    c := t + r;
    CtzCount(x, 4, 0xF, t, r);
  }

  method Ctz4(x: nat) returns (c: nat)
    requires x == 0 || Low(x, 4) != 0
    ensures IsCtz(x, 4, c)
  {
    WordSizes();
    var t := if BitAnd(x, 0x3) == 0 then 2 else 0;
    CtzStep(x, 2, 0x3, t);
    var r := Ctz2(Shr(x, t));
    c := t + r;
    CtzCount(x, 2, 0x3, t, r);
  }

  method Ctz2(x: nat) returns (c: nat)
    requires x == 0 || Low(x, 2) != 0
    ensures IsCtz(x, 2, c)
  {
    CtzLastBits(x);
    var y := BitAnd(x, 3);
    c := BitAnd(2 - Shr(y, 1), if BitAnd(y, 1) == 0 then W32 - 1 else 0);
  }

  /** The branch-free last step of __ctzsi2. */
  lemma CtzLastBits(x: nat)
    requires x == 0 || Low(x, 2) != 0
    ensures var y := BitAnd(x, 3);
            && Shr(y, 1) <= 1
            && IsCtz(x, 2, BitAnd(2 - Shr(y, 1), if BitAnd(y, 1) == 0 then W32 - 1 else 0))
  {
    assert Pow2(0) == 1 && Pow2(1) == 2 && Pow2(2) == 4;
    AndMask(x, 2);
    TwoBits(x);
    var y := BitAnd(x, 3);
    AndMask(y, 1);
    TwoBits(y);
    OnesKeep(2 - y / 2);
  }

  lemma TwoBits(x: nat)
    ensures Low(x, 1) == x % 2 && Low(x, 2) == x % 4 && Shr(x, 1) == x / 2
  {
    assert Pow2(1) == 2 && Pow2(2) == 4;
    SplitUnique(x, 1, x / 2, x % 2);
    SplitUnique(x, 2, x / 4, x % 4);
  }

  // ----- 64-bit words -----

  /** __clzdi2. */
  method Clzdi2(a: nat) returns (c: nat)
    requires a < W64
    ensures IsClz(a, 64, c)
  {
    var high, low := a / W32, a % W32;
    var f := if high == 0 then W32 - 1 else 0;
    SelectWord(high, low);
    var x := BitOr(BitAnd(high, W32 - 1 - f), BitAnd(low, f));
    var r := Clzsi2(x);
    c := r + BitAnd(f, 32);
    if high != 0 { ClzHighWord(a, r); }
  }

  /** __ctzdi2. */
  method Ctzdi2(a: nat) returns (c: nat)
    requires a < W64
    ensures IsCtz(a, 64, c)
  {
    var high, low := a / W32, a % W32;
    var f := if low == 0 then W32 - 1 else 0;
    SelectWord(high, low);
    var x := BitOr(BitAnd(high, f), BitAnd(low, W32 - 1 - f));
    var r := Ctzsi2(x);
    c := r + BitAnd(f, 32);
    if low != 0 {
      CtzLowWord(a, r);
    } else if a != 0 {
      CtzHighWord(a, r);
    }
  }

  /** Masks of all ones and all zeros select one of two words. */
  lemma SelectWord(high: nat, low: nat)
    requires high < W32 && low < W32
    ensures BitOr(BitAnd(high, W32 - 1), BitAnd(low, 0)) == high
    ensures BitOr(BitAnd(high, 0), BitAnd(low, W32 - 1)) == low
    ensures BitAnd(W32 - 1, 32) == 32 && BitAnd(0, 32) == 0
  {
    OnesKeep(high);
    OnesKeep(low);
    OnesKeep(32);
    OrZero(low);
    OrZero(high);
    AndSymmetric(32, W32 - 1);
  }

  /** Splitting a doubleword into words is Shr and Low at 32. */
  lemma Words(a: nat)
    ensures Shr(a, 32) == a / W32 && Low(a, 32) == a % W32
  {
    WordSizes();
    SplitUnique(a, 32, a / W32, a % W32);
  }

  lemma ClzHighWord(a: nat, r: nat)
    requires a / W32 > 0 && IsClz(a / W32, 32, r)
    ensures IsClz(a, 64, r)
  {
    Words(a);
    ClzShifted(a, 32, r);
  }

  lemma CtzHighWord(a: nat, r: nat)
    requires a % W32 == 0 && a != 0 && IsCtz(a / W32, 32, r)
    ensures IsCtz(a, 64, r + 32)
  {
    Words(a);
    ShrShr(a, 32, r + 1);
    Pow2Add(32, r);
  }

  lemma CtzLowWord(a: nat, r: nat)
    requires a % W32 != 0 && IsCtz(a % W32, 32, r)
    ensures IsCtz(a, 64, r)
  {
    Words(a);
    LowNested(a, r + 1, 32);
  }
}
