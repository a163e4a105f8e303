/** 64-bit division on 32-bit words (__udivmoddi4 and its signed callers in abstract-machine/klib/src/int64.c). */
module Int64Div {
  import opened Arithmetic
  import opened Bits
  import opened Int64Bits

  /** The word pairs q and r of __udivmoddi4. */
  datatype Regs = Regs(qh: nat, ql: nat, rh: nat, rl: nat)
  {
    function Q(): nat { W32 * qh + ql }

    function R(): nat { W32 * rh + rl }

    predicate Words() { qh < W32 && ql < W32 && rh < W32 && rl < W32 }
  }

  /** q = n << (64 - sr) and r = n >> sr. */
  ghost predicate Started(n: nat, sr: nat, g: Regs)
  {
    sr <= 64 && g.Words() && g.R() == Shr(n, sr) && g.Q() == Pow2(64 - sr) * Low(n, sr)
  }

  // ----- the three ways q and r are set up -----

  function SetupBelow(nh: nat, nl: nat, sr: nat): Regs
    requires sr < 32
  {
    Regs(Shl(nl, 32 - sr, 32), 0, Shr(nh, sr), FunnelWord(nh, nl, sr))
  }

  function SetupAt(nh: nat, nl: nat): Regs { Regs(nl, 0, 0, nh) }

  function SetupAbove(nh: nat, nl: nat, sr: nat): Regs
    requires 32 < sr < 64
  {
    Regs(FunnelWord(nh, nl, sr - 32), Shl(nl, 64 - sr, 32), 0, Shr(nh, sr - 32))
  }

  /** The funnel shift (h << (32 - s)) | (l >> s) gives bits s to s + 31 of the doubleword. */
  lemma Funnel(n: nat, s: nat)
    requires n < W64 && s <= 32
    ensures var h, l := n / W32, n % W32;
            && W32 * Shr(h, s) + FunnelWord(h, l, s) == Shr(n, s)
            && FunnelWord(h, l, s) == Pow2(32 - s) * Low(h, s) + Shr(l, s) < W32
            && Shr(h, s) < W32
            && Low(n, s) == Low(l, s)
  {
    WordSizes();
    var h, l, p, q := n / W32, n % W32, Pow2(s), Pow2(32 - s);
    Pow2Add(s, 32 - s);
    Split(h, s);
    Split(l, s);
    FunnelWordValue(h, l, s);
    FunnelSplit(p, q, n, h, Shr(h, s), Low(h, s), l, Shr(l, s), Low(l, s));
    SplitUnique(n, s, q * h + Shr(l, s), Low(l, s));
    MulAtMost(p, Shr(h, s));
  }

  function FunnelWord(h: nat, l: nat, s: nat): nat
    requires s <= 32
  {
    BitOr(Shl(h, 32 - s, 32), Shr(l, s))
  }

  lemma FunnelWordValue(h: nat, l: nat, s: nat)
    requires s <= 32 && l < W32
    ensures FunnelWord(h, l, s) == Pow2(32 - s) * Low(h, s) + Shr(l, s) < W32
  {
    hide Low, Shr, Shl, Pow2, BitOr;
    WordSizes();
    var q := Pow2(32 - s);
    ShlLow(h, 32 - s, 32);
    ShrBound(l, s, 32);
    OrDisjoint(Low(h, s), 32 - s, Shr(l, s));
    Split(h, s);
    Pow2Add(32 - s, s);
    ProductBelow(q, Low(h, s), Pow2(s));
  }

  lemma ProductBelow(q: nat, x: nat, p: nat)
    requires x < p
    ensures q * x + q <= q * p
  {
    MulMonotone(q, x + 1, p);
    MulAdd(q, x, 1);
  }

  lemma FunnelSplit(p: nat, q: nat, n: nat, h: nat, hs: nat, hl: nat, l: nat, ls: nat, ll: nat)
    requires p * q == W32 && n == W32 * h + l && h == p * hs + hl && l == p * ls + ll
    ensures q * h >= 0 && n == p * (q * h + ls) + ll
    ensures q * h + ls == W32 * hs + q * hl + ls
  {
    MulAdd(p, q * h, ls);
    MulAssoc(p, q, h);
    MulAdd(q, p * hs, hl);
    MulAssoc(q, p, hs);
  }

  lemma MulAtMost(p: nat, x: nat)
    requires p >= 1
    ensures x <= p * x
  {
  }

  lemma ShrBound(x: nat, s: nat, n: nat)
    requires s <= n && x < Pow2(n)
    ensures Shr(x, s) < Pow2(n - s)
  {
    Split(x, s);
    Pow2Add(s, n - s);
    if Shr(x, s) >= Pow2(n - s) { MulMonotone(Pow2(s), Pow2(n - s), Shr(x, s)); }
  }

  lemma SetupBelowSound(n: nat, sr: nat)
    requires n < W64 && sr < 32
    ensures Started(n, sr, SetupBelow(n / W32, n % W32, sr))
  {
    WordSizes();
    Funnel(n, sr);
    var l := n % W32;
    ShlLow(l, 32 - sr, 32);
    Pow2Add(32, 32 - sr);
    MulAssoc(W32, Pow2(32 - sr), Low(l, sr));
    Pow2Add(32 - sr, sr);
    Split(l, sr);
    ProductBelow(Pow2(32 - sr), Low(l, sr), Pow2(sr));
  }

  lemma SetupAtSound(n: nat)
    requires n < W64
    ensures Started(n, 32, SetupAt(n / W32, n % W32))
  {
    WordSizes();
    Words(n);
  }

  lemma SetupAboveSound(n: nat, sr: nat)
    requires n < W64 && 32 < sr < 64
    ensures Started(n, sr, SetupAbove(n / W32, n % W32, sr))
  {
    var s, h, l := sr - 32, n / W32, n % W32;
    FunnelWordValue(h, l, s);
    AboveR(n, s);
    AboveQ(n, s);
  }

  lemma AboveR(n: nat, s: nat)
    requires n < W64 && 0 < s < 32
    ensures Shr(n, 32 + s) == Shr(n / W32, s) < W32
  {
    Words(n);
    ShrShr(n, 32, s);
    Split(n / W32, s);
    MulAtMost(Pow2(s), Shr(n / W32, s));
  }

  lemma AboveQ(n: nat, s: nat)
    requires n < W64 && 0 < s < 32
    ensures var h, l := n / W32, n % W32;
            && Shl(l, 32 - s, 32) < W32
            && W32 * FunnelWord(h, l, s) + Shl(l, 32 - s, 32) == Pow2(32 - s) * Low(n, 32 + s)
  {
    hide Low, Shr, Shl, Pow2, FunnelWord;
    WordSizes();
    var h, l, q := n / W32, n % W32, Pow2(32 - s);
    Words(n);
    ShrShr(n, 32, s);
    assert Low(n, 32 + s) == l + W32 * Low(h, s);
    FunnelWordValue(h, l, s);
    ShlLow(l, 32 - s, 32);
    Pow2Add(32 - s, s);
    Split(l, s);
    ProductBelow(q, Low(l, s), Pow2(s));
    AboveProduct(q, Pow2(s), l, Low(h, s), Shr(l, s), Low(l, s));
  }

  lemma AboveProduct(q: nat, p: nat, l: nat, hl: nat, ls: nat, ll: nat)
    requires q * p == W32 && l == p * ls + ll
    ensures W32 * (q * hl + ls) + q * ll == q * (l + W32 * hl)
  {
    MulAdd(q, p * ls + ll, W32 * hl);
    MulAdd(q, p * ls, ll);
    MulAssoc(q, p, ls);
    assert q * (W32 * hl) == W32 * (q * hl);
  }

  // ----- the shift-subtract loop -----

  function TopBit(x: nat): nat { if x >= W64 / 2 then 1 else 0 }

  /** x << 1 | bit on a word. */
  lemma DoubleWord(x: nat, bit: nat)
    requires x < W32 && bit <= 1
    ensures Shr(x, 31) == if x >= W32 / 2 then 1 else 0
    ensures BitOr(Shl(x, 1, 32), bit) == 2 * x + bit - W32 * Shr(x, 31)
  {
    WordSizes();
    var t := if x >= W32 / 2 then 1 else 0;
    SplitUnique(x, 31, t, x - W32 / 2 * t);
    ShlLow(x, 1, 32);
    OrDisjoint(Low(x, 31), 1, bit);
  }

  /** (h:l) << 1 | bit on words. */
  lemma DoubleWords(h: nat, l: nat, bit: nat)
    requires h < W32 && l < W32 && bit <= 1
    ensures Shr(l, 31) <= 1 && Shr(h, 31) == TopBit(W32 * h + l)
    ensures var hi, lo := BitOr(Shl(h, 1, 32), Shr(l, 31)), BitOr(Shl(l, 1, 32), bit);
            && hi < W32 && lo < W32
            && W32 * hi + lo == 2 * (W32 * h + l) + bit - W64 * TopBit(W32 * h + l)
  {
    DoubleWord(l, bit);
    DoubleWord(h, Shr(l, 31));
  }

  /** One iteration's shift: r:q moves up by one bit, the next bit of the dividend enters r and the last quotient bit
      enters q. */
  function ShiftIn(g: Regs, carry: nat): Regs
  {
    Regs(BitOr(Shl(g.qh, 1, 32), Shr(g.ql, 31)), BitOr(Shl(g.ql, 1, 32), carry),
         BitOr(Shl(g.rh, 1, 32), Shr(g.rl, 31)), BitOr(Shl(g.rl, 1, 32), Shr(g.qh, 31)))
  }

  /** The sign of d - r - 1 as an arithmetic-shift mask: all ones exactly if r >= d. */
  function Mask(d: nat, r: nat): nat
  {
    if (d + W64 - r - 1) % W64 >= W64 / 2 then W64 - 1 else 0
  }

  /** With sr steps to go, k is the quotient so far: n >> sr = k * d + r, and q holds the bits of n still to enter
      above all but the last bit of k. */
  ghost predicate Dividing(n: nat, d: nat, sr: nat, k: nat, g: Regs, carry: nat)
  {
    && sr <= 63 && g.Words() && carry == k % 2
    && Shr(n, sr) == k * d + g.R() && g.R() < d
    && g.Q() == Pow2(64 - sr) * Low(n, sr) + k / 2
  }

  /** The subtraction mask is right: the difference fits 63 bits and a sign. */
  ghost predicate InRange(n: nat, d: nat, sr: nat)
  {
    d < W64 / 2 || sr == 0 || (sr == 1 && n >= W64 / 2)
  }

  lemma QuotientSmall(n: nat, d: nat, sr: nat, k: nat, r: nat)
    requires n < W64 && sr <= 64 && d > 0 && Shr(n, sr) == k * d + r
    ensures k < Pow2(64 - sr)
  {
    WordSizes();
    ShrBound(n, sr, 64);
    MulAtMost(d, k);
  }

  /** Bits of q: the top one is the next bit of n, and doubling makes room for the last bit of k. */
  lemma QShift(n: nat, sr: nat, k: nat, q: nat)
    requires 1 <= sr <= 63 && k < Pow2(64 - sr) && q == Pow2(64 - sr) * Low(n, sr) + k / 2
    ensures var t := Shr(n, sr - 1) % 2;
            && TopBit(q) == t
            && 2 * q + k % 2 - W64 * t == Pow2(65 - sr) * Low(n, sr - 1) + k
  {
    WordSizes();
    var p, m, l, t := Pow2(64 - sr), Pow2(sr - 1), Low(n, sr - 1), Shr(n, sr - 1) % 2;
    ShrShr(n, sr - 1, 1);
    TwoBits(Shr(n, sr - 1));
    Split(n, sr - 1);
    Pow2Add(64 - sr, sr - 1);
    assert Low(n, sr) == l + m * t;
    QShiftProduct(p, m, l, t, k, q);
    assert Pow2(65 - sr) == 2 * p;
  }

  lemma QShiftProduct(p: nat, m: nat, l: nat, t: nat, k: nat, q: nat)
    requires p * m == W64 / 2 && l < m && k < p && t <= 1 && q == p * (l + m * t) + k / 2
    ensures TopBit(q) == t && 2 * q + k % 2 - W64 * t == (2 * p) * l + k
  {
    var x := p * l;
    assert p * (l + m * t) == x + (W64 / 2) * t by {
      MulAdd(p, l, m * t);
      MulAssoc(p, m, t);
    }
    assert x + p <= W64 / 2 by { ProductBelow(p, l, m); }
    assert (2 * p) * l == 2 * x by { MulAssoc(2, p, l); }
    assert t == 0 || t == 1;
  }

  /** The shift keeps the division in progress, one bit further. */
  lemma ShiftSound(n: nat, d: nat, sr: nat, k: nat, g: Regs, carry: nat)
    requires n < W64 && 0 < d < W64 && 1 <= sr && Dividing(n, d, sr, k, g, carry) && InRange(n, d, sr)
    ensures var s := ShiftIn(g, carry);
            && s.Words()
            && Shr(n, sr - 1) == 2 * (k * d) + s.R() && s.R() < 2 * d
            && s.Q() == Pow2(65 - sr) * Low(n, sr - 1) + k
  {
    QuotientSmall(n, d, sr, k, g.R());
    QShift(n, sr, k, g.Q());
    ShiftInWords(g, carry);
    ShiftR(n, d, sr, k, g.R(), TopBit(g.Q()));
  }

  lemma ShiftR(n: nat, d: nat, sr: nat, k: nat, r: nat, t: nat)
    requires n < W64 && 1 <= sr && InRange(n, d, sr) && Shr(n, sr) == k * d + r && r < d && t == Shr(n, sr - 1) % 2
    ensures TopBit(r) == 0 && Shr(n, sr - 1) == 2 * (k * d) + (2 * r + t)
  {
    RBelowHalf(n, d, sr, k, r);
    ShrShr(n, sr - 1, 1);
    TwoBits(Shr(n, sr - 1));
    NextBit(Shr(n, sr - 1), k * d, r, t);
  }

  lemma NextBit(x: nat, kd: int, r: nat, t: nat)
    requires x / 2 == kd + r && x % 2 == t
    ensures x == 2 * kd + (2 * r + t)
  {
  }

  lemma RBelowHalf(n: nat, d: nat, sr: nat, k: nat, r: nat)
    requires n < W64 && 1 <= sr && InRange(n, d, sr) && Shr(n, sr) == k * d + r && r < d
    ensures r < W64 / 2
  {
    WordSizes();
    if d >= W64 / 2 { ShrBound(n, 1, 64); }
  }

  lemma ShiftInWords(g: Regs, carry: nat)
    requires g.Words() && carry <= 1
    ensures var s := ShiftIn(g, carry);
            && s.Words()
            && s.Q() == 2 * g.Q() + carry - W64 * TopBit(g.Q())
            && s.R() == 2 * g.R() + TopBit(g.Q()) - W64 * TopBit(g.R())
  {
    DoubleWords(g.qh, g.ql, carry);
    DoubleWords(g.rh, g.rl, Shr(g.qh, 31));
  }

  lemma MaskSound(n: nat, d: nat, sr: nat, k: nat, r: nat)
    requires n < W64 && 0 < d < W64 && 1 <= sr <= 63 && InRange(n, d, sr)
    requires Shr(n, sr - 1) == 2 * (k * d) + r && r < 2 * d && r < W64
    ensures Mask(d, r) == if r >= d then W64 - 1 else 0
  {
    if d >= W64 / 2 {
      assert Shr(n, 0) == n;
      if k >= 1 { MulMonotone(d, 1, k); }
      assert k == 0;
    }
  }

  lemma SubtractSound(n: nat, d: nat, sr: nat, k: nat, s: Regs)
    requires n < W64 && 0 < d < W64 && 1 <= sr <= 63 && InRange(n, d, sr) && s.Words()
    requires Shr(n, sr - 1) == 2 * (k * d) + s.R() && s.R() < 2 * d
    ensures var m := Mask(d, s.R());
            && BitAnd(d, m) <= d
            && BitAnd(m, 1) == (if s.R() >= d then 1 else 0)
            && (s.R() + W64 - BitAnd(d, m)) % W64 == (if s.R() >= d then s.R() - d else s.R())
  {
    MaskSound(n, d, sr, k, s.R());
    OnesKeep64(d);
    OnesKeep64(1);
    AndSymmetric(1, W64 - 1);
    AndSymmetric(1, 0);
    AndSymmetric(d, 0);
  }

  lemma OnesKeep64(x: nat)
    requires x < W64
    ensures BitAnd(x, W64 - 1) == x
  {
    WordSizes();
    AndMask(x, 64);
    LowSmall(x, 64);
  }

  lemma NextQuotient(k: nat, d: nat, r: nat, c: nat, x: nat)
    requires x == 2 * (k * d) + r && r < 2 * d && c == if r >= d then 1 else 0
    ensures x == (2 * k + c) * d + (if r >= d then r - d else r)
    ensures (2 * k + c) / 2 == k && (2 * k + c) % 2 == c
  {
    MulAdd(d, 2 * k, c);
    MulAssoc(2, k, d);
  }

  /** r -= d & s. */
  function Subtract(g: Regs, d: nat, s: nat): Regs
    requires BitAnd(d, s) <= W64
  {
    var rest := (g.R() + W64 - BitAnd(d, s)) % W64;
    g.(rh := rest / W32, rl := rest % W32)
  }

  /** One round of the loop produces the next quotient bit. */
  lemma Round(n: nat, d: nat, sr: nat, k: nat, g: Regs, carry: nat)
    requires n < W64 && 0 < d < W64 && 1 <= sr && Dividing(n, d, sr, k, g, carry) && InRange(n, d, sr)
    ensures var h := ShiftIn(g, carry); var s := Mask(d, h.R());
            && BitAnd(d, s) <= W64
            && Dividing(n, d, sr - 1, 2 * k + BitAnd(s, 1), Subtract(h, d, s), BitAnd(s, 1))
  {
    ShiftSound(n, d, sr, k, g, carry);
    var h := ShiftIn(g, carry);
    SubtractSound(n, d, sr, k, h);
    var s := Mask(d, h.R());
    NextQuotient(k, d, h.R(), BitAnd(s, 1), Shr(n, sr - 1));
    SubtractParts(h, d, s);
  }

  lemma SubtractParts(g: Regs, d: nat, s: nat)
    requires BitAnd(d, s) <= W64 && g.Words()
    ensures var t := Subtract(g, d, s);
            t.Words() && t.Q() == g.Q() && t.R() == (g.R() + W64 - BitAnd(d, s)) % W64
  {
    hide BitAnd;
  }

  /** The loop of __udivmoddi4: from q = n << (64 - sr) and r = n >> sr < d, sr rounds of shift and masked
      subtraction leave the remainder in r and the quotient in q. */
  method ShiftSubtract(n: nat, d: nat, rounds: nat, start: Regs) returns (q: nat, r: nat)
    requires n < W64 && 0 < d < W64 && 1 <= rounds <= 63
    requires Started(n, rounds, start) && Shr(n, rounds) < d && InRange(n, d, rounds)
    ensures n == q * d + r && r < d
  {
    var g, carry, sr := start, 0, rounds;
    ghost var k := 0;
    assert Pow2(64 - sr) * Low(n, sr) + 0 == g.Q();
    while sr > 0
      invariant 0 <= sr <= rounds && Dividing(n, d, sr, k, g, carry) && InRange(n, d, sr)
    {
      Round(n, d, sr, k, g, carry);
      g := ShiftIn(g, carry);
      var s := Mask(d, g.R());
      carry := BitAnd(s, 1);
      g := Subtract(g, d, s);
      k := 2 * k + carry;
      sr := sr - 1;
    }
    LastQuotientBit(n, d, k, g, carry);
    q := BitOr(Shl(g.Q(), 1, 64), carry);
    r := g.R();
  }

  lemma LastQuotientBit(n: nat, d: nat, k: nat, g: Regs, carry: nat)
    requires n < W64 && d > 0 && Dividing(n, d, 0, k, g, carry)
    ensures n == k * d + g.R() && BitOr(Shl(g.Q(), 1, 64), carry) == k
  {
    WordSizes();
    QuotientSmall(n, d, 0, k, g.R());
    assert Shr(n, 0) == n && Low(n, 0) == 0;
    assert Pow2(64) * Low(n, 0) == 0;
    assert g.Q() == k / 2;
    ShlLow(k / 2, 1, 64);
    LowSmall(k / 2, 63);
    OrDisjoint(k / 2, 1, carry);
  }

  // ----- __udivmoddi4 -----

  /** q and r are quotient and remainder of a by b. */
  predicate IsDivision(a: nat, b: nat, q: nat, r: nat) { a == q * b + r && r < b }

  /** The shift count clz(d) - clz(n) + 1 makes n >> sr smaller than d. */
  lemma ShiftCount(n: nat, d: nat, cn: nat, cd: nat)
    requires 0 < n < W64 && 0 < d < W64 && IsClz(n, 64, cn) && IsClz(d, 64, cd) && cd >= cn
    ensures Shr(n, cd - cn + 1) < d
    ensures d >= W64 / 2 ==> cd == 0 && n >= W64 / 2
  {
    WordSizes();
    var sr := cd - cn + 1;
    Split(n, sr);
    Pow2Add(sr, 63 - cd);
    if Shr(n, sr) >= Pow2(63 - cd) { MulMonotone(Pow2(sr), Pow2(63 - cd), Shr(n, sr)); }
    if d >= W64 / 2 && cd > 0 { Pow2Monotone(64 - cd, 63); }
  }

  /** With fewer leading zeros the divisor is larger. */
  lemma MoreZerosLess(n: nat, d: nat, cn: nat, cd: nat)
    requires 0 < n && 0 < d && IsClz(n, 64, cn) && IsClz(d, 64, cd) && cd < cn
    ensures n < d
  {
    Pow2Monotone(64 - cn, 63 - cd);
  }

  lemma LowWordClz(d: nat, c: nat)
    requires 0 < d < W32 && IsClz(d, 32, c)
    ensures IsClz(d, 64, c + 32)
  {
  }

  /** One 32-bit division. */
  lemma NativeDivision(a: nat, b: nat)
    requires b > 0
    ensures a / b >= 0 && a % b >= 0 && IsDivision(a, b, a / b, a % b)
  {
  }

  /** K 0 / K 0: both low words are zero. */
  lemma HighWordsDivision(h: nat, d: nat, q: nat, r: nat)
    requires IsDivision(h, d, q, r)
    ensures IsDivision(W32 * h, W32 * d, q, W32 * r)
  {
    MulAssoc(W32, q, d);
    assert W32 * (q * d) == q * (W32 * d);
  }

  /** A power of two is its own number of trailing zeros. */
  lemma CtzOfPower(d: nat, c: nat)
    requires 0 < d < W32 && BitAnd(d, d - 1) == 0 && IsCtz(d, 32, c)
    ensures d == Pow2(c)
  {
    hide Low, Pow2, BitAnd;
    var k := PowerOfTwoTest(d);
    if k <= c { LowSmallPower(k, c + 1); } else { LowLargePower(k, c + 1); }
  }

  lemma LowLargePower(k: nat, n: nat)
    requires n <= k
    ensures Low(Pow2(k), n) == 0
  {
    hide Low, Pow2;
    Pow2Add(n, k - n);
    SplitUnique(Pow2(k), n, Pow2(k - n), 0);
  }

  lemma LowSmallPower(k: nat, n: nat)
    requires k < n
    ensures Low(Pow2(k), n) == Pow2(k)
  {
    Pow2Monotone(k, n);
    LowSmall(Pow2(k), n);
  }

  /** K K / K 0 with a power of two: shift and mask the high word. */
  lemma HighPowerDivision(h: nat, l: nat, c: nat)
    requires l < W32
    ensures IsDivision(W32 * h + l, W32 * Pow2(c), Shr(h, c), W32 * Low(h, c) + l)
  {
    Split(h, c);
    HighWordsDivision(Pow2(c) * Shr(h, c) + Low(h, c), Pow2(c), Shr(h, c), Low(h, c));
  }

  /** K X / 0 K with a power of two: shift and mask the doubleword. */
  lemma LowPowerDivision(n: nat, c: nat)
    requires n < W64 && c < 32
    ensures IsDivision(n, Pow2(c), W32 * Shr(n / W32, c) + FunnelWord(n / W32, n % W32, c), Low(n % W32, c))
  {
    Funnel(n, c);
    Split(n, c);
    MulCommutes(Pow2(c), Shr(n, c));
  }

  /** __udivmoddi4: the quotient and remainder of every 64-bit a by every nonzero 64-bit b. */
  method Udivmoddi4(a: nat, b: nat) returns (q: nat, rem: nat)
    requires a < W64 && 0 < b < W64
    ensures IsDivision(a, b, q, rem)
  {
    var nh, nl, dh, dl := a / W32, a % W32, b / W32, b % W32;
    if nh == 0 {
      if dh == 0 {
        NativeDivision(nl, dl);
        return nl / dl, nl % dl;
      }
      return 0, nl;
    }
    if dl == 0 {
      q, rem := DivideByHighWord(a, nh, nl, dh);
    } else if dh == 0 {
      q, rem := DivideByLowWord(a, nh, nl, dl);
    } else {
      q, rem := DivideByHighBits(a, b, nh, nl, dh, 31);
    }
  }

  /** No special case: q and r are set up for a shift count below, at or above the word size, then the loop runs. */
  method LongDivision(n: nat, d: nat, nh: nat, nl: nat, sr: nat) returns (q: nat, r: nat)
    requires n < W64 && nh == n / W32 && nl == n % W32 && 0 < d < W64 && 1 <= sr <= 63
    requires Shr(n, sr) < d && InRange(n, d, sr)
    ensures IsDivision(n, d, q, r)
  {
    var g: Regs;
    if sr == 32 {
      g := SetupAt(nh, nl);
      SetupAtSound(n);
    } else if sr < 32 {
      g := SetupBelow(nh, nl, sr);
      SetupBelowSound(n, sr);
    } else {
      g := SetupAbove(nh, nl, sr);
      SetupAboveSound(n, sr);
    }
    q, r := ShiftSubtract(n, d, sr, g);
  }

  /** The branch d.s.low == 0. */
  method DivideByHighWord(a: nat, nh: nat, nl: nat, dh: nat) returns (q: nat, rem: nat)
    requires a < W64 && 0 < nh == a / W32 && nl == a % W32 && 0 < dh < W32
    ensures IsDivision(a, W32 * dh, q, rem)
  {
    if nl == 0 {
      NativeDivision(nh, dh);
      HighWordsDivision(nh, dh, nh / dh, nh % dh);
      return nh / dh, W32 * (nh % dh);
    }
    if BitAnd(dh, dh - 1) == 0 {
      var c := Ctzsi2(dh);
      CtzOfPower(dh, c);
      AndMask(nh, c);
      HighPowerDivision(nh, nl, c);
      return Shr(nh, c), W32 * BitAnd(nh, dh - 1) + nl;
    }
    q, rem := DivideByHighBits(a, W32 * dh, nh, nl, dh, 30);
  }

  /** An unsigned difference of zero counts above the limit means that the divisor is the larger number; for the
      limit 30 this needs a divisor that is no power of two. */
  lemma NoQuotient(a: nat, d: nat, dh: nat, cn: nat, cd: nat, limit: nat)
    requires 0 < a && dh == d / W32 && 0 < dh && IsClz(a, 64, cn) && IsClz(d, 64, cd) && cn <= 31 && cd <= 31
    requires IsClz(dh, 32, cd) && limit < (W32 + cd - cn) % W32
    requires limit == 31 || (limit == 30 && BitAnd(dh, dh - 1) != 0)
    ensures IsDivision(a, d, 0, a)
  {
    if cd < cn { MoreZerosLess(a, d, cn, cd); }
  }

  /** The branch d.s.low != 0, d.s.high == 0. */
  method DivideByLowWord(a: nat, nh: nat, nl: nat, dl: nat) returns (q: nat, rem: nat)
    requires a < W64 && 0 < nh == a / W32 && nl == a % W32 && 0 < dl < W32
    ensures IsDivision(a, dl, q, rem)
  {
    if BitAnd(dl, dl - 1) == 0 {
      var c := Ctzsi2(dl);
      CtzOfPower(dl, c);
      AndMask(nl, c);
      LowPowerDivision(a, c);
      rem := BitAnd(nl, dl - 1);
      if dl == 1 {
        return a, rem;
      }
      return W32 * Shr(nh, c) + FunnelWord(nh, nl, c), rem;
    }
    var cd := Clzsi2(dl);
    var cn := Clzsi2(nh);
    ClzHighWord(a, cn);
    LowWordClz(dl, cd);
    ShiftCount(a, dl, cn, cd + 32);
    var sr := 1 + 32 + cd - cn;
    NotOne(dl, cd);
    q, rem := LongDivision(a, dl, nh, nl, sr);
  }

  lemma NotOne(d: nat, c: nat)
    requires 0 < d && IsClz(d, 32, c) && BitAnd(d, d - 1) != 0
    ensures c <= 30
  {
  }

  /** The branches where the divisor's high word is nonzero: K 0 with limit n_uword_bits - 2, K K with
      limit n_uword_bits - 1. */
  method DivideByHighBits(a: nat, b: nat, nh: nat, nl: nat, dh: nat, limit: nat) returns (q: nat, rem: nat)
    requires a < W64 && 0 < nh == a / W32 && nl == a % W32 && b < W64 && 0 < dh == b / W32
    requires limit == 31 || (limit == 30 && BitAnd(dh, dh - 1) != 0)
    ensures IsDivision(a, b, q, rem)
  {
    hide IsClz, BitAnd;
    var cd := Clzsi2(dh);
    var cn := Clzsi2(nh);
    ClzHighWord(a, cn);
    ClzHighWord(b, cd);
    var sr := (W32 + cd - cn) % W32;
    if sr > limit {
      NoQuotient(a, b, dh, cn, cd, limit);
      return 0, a;
    }
    assert sr == cd - cn;
    sr := sr + 1;
    ShiftCount(a, b, cn, cd);
    q, rem := LongDivision(a, b, nh, nl, sr);
  }

  // ----- signed division -----

  /** Two's complement of a signed 64-bit number, and back. */
  function Pattern(x: int): nat
    requires -(W64 / 2) <= x < W64
  {
    if x < 0 then x + W64 else x
  }

  function Signed(p: nat): int
    requires p < W64
  {
    if p >= W64 / 2 then p - W64 else p
  }

  predicate InInt64(x: int) { -(W64 / 2) <= x < W64 / 2 }

  /** (x ^ s) - s with s all ones or all zeros: conditional negation of a 64-bit pattern. */
  function Negated(p: nat, s: nat): nat { (BitXor(p, s) + W64 - s) % W64 }

  lemma NegatedSound(p: nat)
    requires p < W64
    ensures Negated(p, W64 - 1) == (if p == 0 then 0 else W64 - p)
    ensures Negated(p, 0) == p
  {
    hide Pow2, BitXor;
    WordSizes();
    XorOnes(p, 64);
    XorZero(p);
  }

  /** x >> 63 of a signed number. */
  function SignMask(x: int): nat { if x < 0 then W64 - 1 else 0 }

  function Abs(x: int): nat { if x < 0 then -x else x }

  /** Division truncating toward zero. */
  predicate IsTruncated(a: int, b: int, q: int, r: int)
  {
    && a == q * b + r
    && Abs(r) < Abs(b)
    && (r == 0 || (r < 0 <==> a < 0))
  }

  function WithSign(negative: bool, m: int): int { if negative then -m else m }

  lemma Truncation(a: int, b: int, q: nat, r: nat)
    requires b != 0 && IsDivision(Abs(a), Abs(b), q, r)
    ensures IsTruncated(a, b, WithSign((a < 0) != (b < 0), q), WithSign(a < 0, r))
  {
    MulSigns(q, b);
  }

  lemma MulSigns(x: int, y: int)
    ensures (-x) * y == -(x * y) && x * (-y) == -(x * y)
  {
  }

  lemma SignXor(a: int, b: int)
    ensures BitXor(SignMask(a), SignMask(b)) == if (a < 0) != (b < 0) then W64 - 1 else 0
  {
    WordSizes();
    XorOnes(W64 - 1, 64);
    XorOnes(0, 64);
    XorZero(W64 - 1);
  }

  /** __divdi3 truncates toward zero; only INT64_MIN / -1, whose quotient does not fit, comes back as INT64_MIN. */
  method Divdi3(a: int, b: int) returns (q: int)
    requires InInt64(a) && InInt64(b) && b != 0
    ensures InInt64(q)
    ensures (exists r :: IsTruncated(a, b, q, r)) <==> !(a == -(W64 / 2) && b == -1)
    ensures a == -(W64 / 2) && b == -1 ==> q == a
  {
    var sa, sb := SignMask(a), SignMask(b);
    NegatedSound(Pattern(a));
    NegatedSound(Pattern(b));
    var ua, ub := Negated(Pattern(a), sa), Negated(Pattern(b), sb);
    SignXor(a, b);
    sa := BitXor(sa, sb);
    var uq, ur := Udivmoddi4(ua, ub);
    QuotientFits(ua, ub, uq, ur);
    NegatedSound(uq);
    q := Signed(Negated(uq, sa));
    Truncation(a, b, uq, ur);
    SignedQuotient(a, b, uq, ur, q);
  }

  lemma QuotientFits(a: nat, b: nat, q: nat, r: nat)
    requires b > 0 && IsDivision(a, b, q, r)
    ensures q <= a && (b >= 2 ==> 2 * q <= a) && (b == 1 ==> q == a)
  {
    if b >= 2 { MulMonotone(q, 2, b); }
  }

  lemma SignedQuotient(a: int, b: int, uq: nat, ur: nat, q: int)
    requires InInt64(a) && InInt64(b) && b != 0 && IsDivision(Abs(a), Abs(b), uq, ur)
    requires uq <= Abs(a) && (Abs(b) >= 2 ==> 2 * uq <= Abs(a)) && (Abs(b) == 1 ==> uq == Abs(a))
    requires q == (var s := WithSign((a < 0) != (b < 0), uq); if s == W64 / 2 then -(W64 / 2) else s)
    ensures (exists r :: IsTruncated(a, b, q, r)) <==> !(a == -(W64 / 2) && b == -1)
    ensures a == -(W64 / 2) && b == -1 ==> q == a
  {
    Truncation(a, b, uq, ur);
    if a == -(W64 / 2) && b == -1 {
      forall r ensures !IsTruncated(a, b, q, r) {
      }
    } else {
      assert IsTruncated(a, b, q, WithSign(a < 0, ur));
    }
  }

  /** __moddi3: the remainder of truncating division, for every a and nonzero b. */
  method Moddi3(a: int, b: int) returns (r: int)
    requires InInt64(a) && InInt64(b) && b != 0
    ensures exists q :: IsTruncated(a, b, q, r)
  {
    var s := SignMask(b);
    NegatedSound(Pattern(b));
    var ub := Negated(Pattern(b), s);
    s := SignMask(a);
    NegatedSound(Pattern(a));
    var ua := Negated(Pattern(a), s);
    var uq, ur := Udivmoddi4(ua, ub);
    NegatedSound(ur);
    r := Signed(Negated(ur, s));
    Truncation(a, b, uq, ur);
    assert IsTruncated(a, b, WithSign((a < 0) != (b < 0), uq), r);
  }

  /** __divmoddi4: quotient and remainder together, wrapping like 64-bit arithmetic. */
  method Divmoddi4(a: int, b: int) returns (q: int, rem: int)
    requires InInt64(a) && InInt64(b) && b != 0
    ensures IsTruncated(a, b, q, rem) <==> !(a == -(W64 / 2) && b == -1)
    ensures a == -(W64 / 2) && b == -1 ==> q == a && rem == 0
  {
    q := Divdi3(a, b);
    var product := (q * b) % W64;
    rem := Signed((Pattern(a) + W64 - product) % W64);
    if a == -(W64 / 2) && b == -1 {
      MulSigns(q, 1);
      WrappedDifference(a, q * b, 0);
      assert !IsTruncated(a, b, q, rem);
    } else {
      var r :| IsTruncated(a, b, q, r);
      WrappedDifference(a, q * b, r);
    }
  }

  /** a - p computed modulo 2^64. */
  lemma WrappedDifference(a: int, p: int, r: int)
    requires InInt64(a) && InInt64(r) && (p == a - r || p == a - r + W64)
    ensures Signed((Pattern(a) + W64 - p % W64) % W64) == r
  {
  }
}
