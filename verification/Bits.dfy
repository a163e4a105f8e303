/** Unsigned machine words as natural numbers: powers of two, shifts and C's bitwise operators, all by recursion on
    the lowest bit. */
module Bits {
  import opened Arithmetic

  function Pow2(n: nat): (p: nat)
    ensures p >= 1
  {
    if n == 0 then 1 else 2 * Pow2(n - 1)
  }

  /** x >> k of an unsigned word. */
  function Shr(x: nat, k: nat): nat
    decreases k, x
  {
    if k == 0 then x else Shr(x / 2, k - 1)
  }

  /** The lowest k bits of x. */
  function Low(x: nat, k: nat): nat
    decreases k, x
  {
    if k == 0 then 0 else x % 2 + 2 * Low(x / 2, k - 1)
  }

  /** x << k in a word of n bits. */
  function Shl(x: nat, k: nat, n: nat): nat { Low(Pow2(k) * x, n) }

  /** x & y. */
  function BitAnd(x: nat, y: nat): nat
    decreases x, y
  {
    if x == 0 || y == 0 then 0
    else (if x % 2 == 1 && y % 2 == 1 then 1 else 0) + 2 * BitAnd(x / 2, y / 2)
  }

  /** x | y. */
  function BitOr(x: nat, y: nat): nat
    decreases x + y
  {
    if x == 0 && y == 0 then 0
    else (if x % 2 == 1 || y % 2 == 1 then 1 else 0) + 2 * BitOr(x / 2, y / 2)
  }

  /** x ^ y. */
  function BitXor(x: nat, y: nat): nat
    decreases x + y
  {
    if x == 0 && y == 0 then 0
    else (if x % 2 != y % 2 then 1 else 0) + 2 * BitXor(x / 2, y / 2)
  }

  lemma {:induction false} Pow2Add(a: nat, b: nat)
    ensures Pow2(a + b) == Pow2(a) * Pow2(b)
    decreases a
  {
    if a > 0 {
      Pow2Add(a - 1, b);
      MulAssoc(2, Pow2(a - 1), Pow2(b));
    }
  }

  lemma Pow2Double(n: nat)
    ensures Pow2(n + 1) == 2 * Pow2(n)
  {
  }

  lemma {:induction false} Pow2Monotone(a: nat, b: nat)
    requires a <= b
    ensures Pow2(a) <= Pow2(b)
    ensures a < b ==> Pow2(a) < Pow2(b)
    decreases b
  {
    if a < b { Pow2Monotone(a, b - 1); }
  }

  /** A word is its upper bits, shifted back up, and its lowest k bits. */
  lemma {:induction false} Split(x: nat, k: nat)
    ensures x == Pow2(k) * Shr(x, k) + Low(x, k)
    ensures Low(x, k) < Pow2(k)
    decreases k
  {
    if k > 0 {
      Split(x / 2, k - 1);
      MulAssoc(2, Pow2(k - 1), Shr(x / 2, k - 1));
    }
  }

  /** And that decomposition is unique. */
  lemma {:induction false} SplitUnique(x: nat, k: nat, h: nat, l: nat)
    requires x == Pow2(k) * h + l && l < Pow2(k)
    ensures Shr(x, k) == h && Low(x, k) == l
    decreases k
  {
    if k > 0 {
      MulAssoc(2, Pow2(k - 1), h);
      var y := Pow2(k - 1) * h;
      assert x == 2 * y + l && x / 2 == y + l / 2 && x % 2 == l % 2;
      SplitUnique(x / 2, k - 1, h, l / 2);
    }
  }

  lemma LowSmall(x: nat, k: nat)
    requires x < Pow2(k)
    ensures Shr(x, k) == 0 && Low(x, k) == x
  {
    SplitUnique(x, k, 0, x);
  }

  lemma {:induction false} ShrShr(x: nat, a: nat, b: nat)
    ensures Shr(Shr(x, a), b) == Shr(x, a + b)
    ensures Low(x, a + b) == Low(x, a) + Pow2(a) * Low(Shr(x, a), b)
    decreases a
  {
    if a > 0 {
      ShrShr(x / 2, a - 1, b);
      MulAssoc(2, Pow2(a - 1), Low(Shr(x, a), b));
    }
  }

  /** Multiples of 2^n do not show in the lowest n bits. */
  lemma LowOfSum(h: nat, n: nat, x: nat)
    ensures Low(Pow2(n) * h + x, n) == Low(x, n)
  {
    Split(x, n);
    MulAdd(Pow2(n), h, Shr(x, n));
    SplitUnique(Pow2(n) * h + x, n, h + Shr(x, n), Low(x, n));
  }

  /** x << k keeps the lowest n - k bits of x. */
  lemma ShlLow(x: nat, k: nat, n: nat)
    requires k <= n
    ensures Shl(x, k, n) == Pow2(k) * Low(x, n - k)
  {
    var p, q, h, l := Pow2(k), Pow2(n - k), Shr(x, n - k), Low(x, n - k);
    Split(x, n - k);
    Pow2Add(k, n - k);
    ShiftedParts(p, q, h, l);
    SplitUnique(p * x, n, h, p * l);
  }

  lemma ShiftedParts(p: nat, q: nat, h: nat, l: nat)
    requires l < q && p > 0
    ensures p * (q * h + l) == (p * q) * h + p * l
    ensures p * l < p * q
  {
    MulAdd(p, q * h, l);
    MulAssoc(p, q, h);
    MulMonotone(p, l + 1, q);
    MulAdd(p, l, 1);
  }

  lemma {:induction false} OrZero(y: nat)
    ensures BitOr(0, y) == y && BitOr(y, 0) == y
  {
    if y > 0 { OrZero(y / 2); }
  }

  /** Where the two operands have no bit in common, | is +. */
  lemma {:induction false} OrDisjoint(h: nat, k: nat, y: nat)
    requires y < Pow2(k)
    ensures BitOr(Pow2(k) * h, y) == Pow2(k) * h + y
    decreases k
  {
    if k == 0 {
      OrZero(h);
    } else {
      MulAssoc(2, Pow2(k - 1), h);
      var z := Pow2(k - 1) * h;
      OrDisjoint(h, k - 1, y / 2);
      assert BitOr(2 * z, y) == y % 2 + 2 * BitOr(z, y / 2);
    }
  }

  lemma {:induction false} AndSymmetric(x: nat, y: nat)
    ensures BitAnd(x, y) == BitAnd(y, x)
  {
    if x > 0 && y > 0 { AndSymmetric(x / 2, y / 2); }
  }

  /** A mask of k ones keeps the lowest k bits. */
  lemma {:induction false} AndMask(x: nat, k: nat)
    ensures BitAnd(x, Pow2(k) - 1) == Low(x, k)
    decreases k
  {
    if k > 0 {
      var m := Pow2(k) - 1;
      assert m / 2 == Pow2(k - 1) - 1 && m % 2 == 1;
      AndMask(x / 2, k - 1);
      if x == 0 { LowSmall(0, k); }
    }
  }

  /** A mask of n bits with the lowest k clear removes those k bits. */
  lemma {:induction false} AndHighMask(x: nat, k: nat, n: nat)
    requires k <= n && x < Pow2(n)
    ensures Pow2(k) <= Pow2(n)
    ensures BitAnd(x, Pow2(n) - Pow2(k)) == x - Low(x, k)
    decreases k
  {
    hide BitAnd;
    Pow2Monotone(k, n);
    if k == 0 {
      AndMask(x, n);
      LowSmall(x, n);
    } else {
      var h := Pow2(n - 1) - Pow2(k - 1);
      Pow2Monotone(k - 1, n - 1);
      assert Pow2(n) - Pow2(k) == 2 * h;
      AndHighMask(x / 2, k - 1, n - 1);
      AndEven(x, h);
    }
  }

  lemma AndEven(x: nat, h: nat)
    ensures BitAnd(x, 2 * h) == 2 * BitAnd(x / 2, h)
  {
  }

  /** What the operators do to every bit. */
  predicate Bit(x: nat, i: nat) { Shr(x, i) % 2 == 1 }

  lemma {:induction false} BitwiseMeaning(x: nat, y: nat, i: nat)
    ensures Bit(BitAnd(x, y), i) <==> Bit(x, i) && Bit(y, i)
    ensures Bit(BitOr(x, y), i) <==> Bit(x, i) || Bit(y, i)
    ensures Bit(BitXor(x, y), i) <==> Bit(x, i) != Bit(y, i)
    decreases i
  {
    AndStep(x, y);
    OrStep(x, y);
    XorStep(x, y);
    if i > 0 { BitwiseMeaning(x / 2, y / 2, i - 1); }
  }

  lemma AndStep(x: nat, y: nat)
    ensures BitAnd(x, y) / 2 == BitAnd(x / 2, y / 2)
    ensures BitAnd(x, y) % 2 == if x % 2 == 1 && y % 2 == 1 then 1 else 0
  {
  }

  lemma OrStep(x: nat, y: nat)
    ensures BitOr(x, y) / 2 == BitOr(x / 2, y / 2)
    ensures BitOr(x, y) % 2 == if x % 2 == 1 || y % 2 == 1 then 1 else 0
  {
  }

  lemma XorStep(x: nat, y: nat)
    ensures BitXor(x, y) / 2 == BitXor(x / 2, y / 2)
    ensures BitXor(x, y) % 2 == if x % 2 != y % 2 then 1 else 0
  {
  }

  /** | and & together have the bits of both operands, and ^ those of one of them. */
  lemma {:induction false} OrXorSums(x: nat, y: nat)
    ensures BitOr(x, y) + BitAnd(x, y) == x + y
    ensures BitXor(x, y) + 2 * BitAnd(x, y) == x + y
    decreases x + y
  {
    if x > 0 || y > 0 {
      OrXorSums(x / 2, y / 2);
      AndStep(x, y);
      OrStep(x, y);
      XorStep(x, y);
    }
  }

  /** Complement of an n-bit word. */
  lemma {:induction false} XorOnes(x: nat, n: nat)
    requires x < Pow2(n)
    ensures BitXor(x, Pow2(n) - 1) == Pow2(n) - 1 - x
    decreases n
  {
    if n > 0 {
      assert (2 * Pow2(n - 1) - 1) / 2 == Pow2(n - 1) - 1;
      XorOnes(x / 2, n - 1);
    }
  }

  lemma {:induction false} XorZero(x: nat)
    ensures BitXor(x, 0) == x
  {
    if x > 0 { XorZero(x / 2); }
  }

  /** x ^ 2^k turns bit k over. */
  lemma {:induction false} XorPower(x: nat, k: nat)
    ensures BitXor(x, Pow2(k)) == if Bit(x, k) then x - Pow2(k) else x + Pow2(k)
    decreases k
  {
    XorStep(x, Pow2(k));
    if k == 0 { XorZero(x / 2); } else { XorPower(x / 2, k - 1); }
  }

  lemma {:induction false} AndSelf(x: nat)
    ensures BitAnd(x, x) == x
  {
    if x > 0 { AndSelf(x / 2); }
  }

  /** x & (x - 1) == 0 only for powers of two. */
  lemma {:induction false} PowerOfTwoTest(d: nat) returns (k: nat)
    requires d > 0
    ensures BitAnd(d, d - 1) == 0 ==> d == Pow2(k)
    decreases d
  {
    if d == 1 {
      k := 0;
    } else if d % 2 == 1 {
      assert (d - 1) / 2 == d / 2;
      AndSelf(d / 2);
      k := 0;
    } else {
      assert (d - 1) / 2 == d / 2 - 1;
      k := PowerOfTwoTest(d / 2);
      k := k + 1;
    }
  }

  /** Low bits of low bits. */
  lemma {:induction false} LowNested(x: nat, a: nat, b: nat)
    requires a <= b
    ensures Low(Low(x, b), a) == Low(x, a)
    decreases a
  {
    if a > 0 { LowNested(x / 2, a - 1, b - 1); }
  }
}
