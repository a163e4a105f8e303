/** Double-word multiplication by shift and add (abstract-machine/am/src/riscv/npc/libgcc/multi3.c), for any word
    width `w`. */
module Multi3 {
  import opened Arithmetic
  import opened Bits

  /** __muluw3: word multiplication. */
  function Muluw3(x: nat, y: nat, w: nat): nat { Low(x * y, w) }

  /** The state of the loop: the running sum (w_high, w_low) and the shifted multiplicand (w_high_tmp, u_low). */
  datatype Sum = Sum(wLow: nat, wHigh: nat, wHighTmp: nat, uLow: nat, vLow: nat)
  {
    predicate Words(b: nat) { wLow < b && wHigh < b && wHighTmp < b && uLow < b }

    function Acc(b: nat): nat { b * wHigh + wLow }

    function Term(b: nat): nat { b * wHighTmp + uLow }
  }

  /** What is summed plus what is still to be added is the product. */
  ghost predicate Adds(s: Sum, b: nat, product: nat)
  {
    s.Words(b) && s.Acc(b) + s.Term(b) * s.vLow == product
  }

  /** One iteration of the do-while loop. */
  function Step(s: Sum, w: nat): Sum
    requires w >= 1
  {
    var newWLow := Low(s.wLow + s.uLow, w);
    var tmp2x := Low(2 * s.wHighTmp, w);
    var tmp := Low(s.wHighTmp + s.wHigh, w);
    var odd := BitAnd(s.vLow, 1) == 1;
    var carry := if newWLow < s.wLow then 1 else 0;
    Sum(if odd then newWLow else s.wLow,
        if odd then Low(carry + tmp, w) else s.wHigh,
        BitOr(Shr(s.uLow, w - 1), tmp2x),
        Low(2 * s.uLow, w),
        Shr(s.vLow, 1))
  }

  lemma LowBound(x: nat, w: nat)
    ensures Low(x, w) < Pow2(w)
  {
    Split(x, w);
  }

  /** A sum of two words, and its carry. */
  lemma AddWords(x: nat, y: nat, w: nat)
    requires x < Pow2(w) && y < Pow2(w)
    ensures Low(x + y, w) == if x + y < Pow2(w) then x + y else x + y - Pow2(w)
    ensures Low(x + y, w) < x <==> x + y >= Pow2(w)
  {
    var h := if x + y < Pow2(w) then 0 else 1;
    SplitUnique(x + y, w, h, x + y - Pow2(w) * h);
  }

  /** Adding the term to the sum with carry, as long as the double word does not overflow. */
  lemma AddDouble(s: Sum, w: nat)
    requires var b := Pow2(w); s.Words(b) && s.Acc(b) + s.Term(b) < b * b
    ensures var b := Pow2(w);
            var low := Low(s.wLow + s.uLow, w);
            var high := Low((if low < s.wLow then 1 else 0) + Low(s.wHighTmp + s.wHigh, w), w);
            low < b && high < b && b * high + low == s.Acc(b) + s.Term(b)
  {
    hide Low, Pow2;
    var b := Pow2(w);
    AddWords(s.wLow, s.uLow, w);
    var low := Low(s.wLow + s.uLow, w);
    var carry := if low < s.wLow then 1 else 0;
    var sum := s.wHighTmp + s.wHigh + carry;
    MulAdd(b, s.wHighTmp, s.wHigh);
    MulAdd(b, s.wHighTmp + s.wHigh, carry);
    assert s.Acc(b) + s.Term(b) == b * sum + low;
    NoOverflow(b, sum, low);
    LowSmall(s.wHighTmp + s.wHigh, w);
    LowSmall(sum, w);
    LowBound(s.wLow + s.uLow, w);
  }

  lemma NoOverflow(b: nat, h: nat, l: nat)
    requires b * h + l < b * b
    ensures h < b
  {
    if h >= b { MulMonotone(b, b, h); }
  }

  /** Doubling the term, as long as it does not overflow. */
  lemma DoubleTerm(s: Sum, w: nat)
    requires w >= 1 && var b := Pow2(w); s.Words(b)
    ensures var b := Pow2(w);
            var high := BitOr(Shr(s.uLow, w - 1), Low(2 * s.wHighTmp, w));
            && high < b && Low(2 * s.uLow, w) < b
            && (2 * s.Term(b) < b * b ==> b * high + Low(2 * s.uLow, w) == 2 * s.Term(b))
  {
    hide Low, Shr, BitOr;
    var b := Pow2(w);
    var t := if s.uLow >= Pow2(w - 1) then 1 else 0;
    DoubleLowWord(s.uLow, w, t);
    DoubleHighWord(s.wHighTmp, t, w);
    if 2 * s.Term(b) < b * b {
      DoubleProduct(b, s.wHighTmp, s.uLow, t, Low(2 * s.uLow, w));
      NoOverflow(b, 2 * s.wHighTmp + t, Low(2 * s.uLow, w));
      LowSmall(2 * s.wHighTmp, w);
    }
  }

  lemma DoubleLowWord(x: nat, w: nat, t: nat)
    requires w >= 1 && x < Pow2(w) && t == if x >= Pow2(w - 1) then 1 else 0
    ensures Shr(x, w - 1) == t && 2 * x == Pow2(w) * t + Low(2 * x, w) && Low(2 * x, w) < Pow2(w)
  {
    SplitUnique(x, w - 1, t, x - Pow2(w - 1) * t);
    SplitUnique(2 * x, w, t, 2 * x - Pow2(w) * t);
  }

  lemma DoubleHighWord(x: nat, t: nat, w: nat)
    requires w >= 1 && t <= 1
    ensures BitOr(t, Low(2 * x, w)) == Low(2 * x, w) + t < Pow2(w)
  {
    LowEven(x, w);
    var y := Low(x, w - 1);
    OrSymmetric(t, 2 * y);
    assert Pow2(1) == 2;
    OrDisjoint(y, 1, t);
    LowBound(x, w - 1);
  }

  lemma DoubleProduct(b: nat, h: nat, l: nat, t: nat, l2: nat)
    requires 2 * l == b * t + l2
    ensures 2 * (b * h + l) == b * (2 * h + t) + l2
  {
    MulAdd(b, 2 * h, t);
    MulAssoc(b, 2, h);
  }

  lemma {:induction false} LowEven(x: nat, w: nat)
    requires w >= 1
    ensures Low(2 * x, w) == 2 * Low(x, w - 1)
  {
    assert 2 * x / 2 == x && 2 * x % 2 == 0;
  }

  lemma {:induction false} OrSymmetric(x: nat, y: nat)
    ensures BitOr(x, y) == BitOr(y, x)
    decreases x + y
  {
    if x > 0 || y > 0 { OrSymmetric(x / 2, y / 2); }
  }

  lemma LowestBit(v: nat)
    ensures Shr(v, 1) == v / 2 && BitAnd(v, 1) == v % 2
  {
    AndMask(v, 1);
    assert Low(v, 1) == v % 2;
  }

  /** One iteration keeps the invariant. */
  lemma StepAdds(s: Sum, w: nat, product: nat)
    requires w >= 1 && product < Pow2(w) * Pow2(w) && Adds(s, Pow2(w), product)
    ensures Adds(Step(s, w), Pow2(w), product)
    ensures Step(s, w).vLow == s.vLow / 2
  {
    hide Low, Shr, BitAnd, BitOr, Pow2;
    var b := Pow2(w);
    var v, t := s.vLow, s.Term(b);
    LowestBit(v);
    HalveFactor(t, v);
    if v % 2 == 1 {
      assert s.Acc(b) + t <= product by { Nonnegative(2 * t, v / 2); }
      AddDouble(s, w);
    }
    DoubleTerm(s, w);
    if v / 2 > 0 {
      MulMonotone(2 * t, 1, v / 2);
    } else {
      TimesZero(2 * t, Step(s, w).Term(b));
    }
  }

  lemma HalveFactor(t: nat, v: nat)
    ensures t * v == (2 * t) * (v / 2) + (if v % 2 == 1 then t else 0)
  {
    MulAdd(t, 2 * (v / 2), v % 2);
    MulAssoc(t, 2, v / 2);
  }

  lemma TimesZero(x: int, y: int)
    ensures x * 0 == 0 == y * 0
  {
  }

  /** The do-while loop: the full double-word product of the two low words. */
  method MultiplyWords(uL: nat, vL: nat, w: nat) returns (low: nat, high: nat)
    requires w >= 1 && uL < Pow2(w) && vL < Pow2(w)
    ensures low < Pow2(w) && high < Pow2(w) && Pow2(w) * high + low == uL * vL
  {
    ghost var b, product := Pow2(w), uL * vL;
    LoopStart(uL, vL, b);
    var s := Step(Sum(0, 0, 0, uL, vL), w);
    StepAdds(Sum(0, 0, 0, uL, vL), w, product);
    while s.vLow != 0
      invariant Adds(s, b, product)
      decreases s.vLow
    {
      StepAdds(s, w, product);
      s := Step(s, w);
    }
    TimesZero(s.Term(b), 0);
    low, high := s.wLow, s.wHigh;
  }

  /** __multi3: the product of two double words, modulo the square of the word size. */
  method Multi3(u: nat, v: nat, w: nat) returns (r: nat)
    requires w >= 1 && u < Pow2(2 * w) && v < Pow2(2 * w)
    ensures r == Low(u * v, 2 * w)
  {
    var uH, uL, vH, vL := Shr(u, w), Low(u, w), Shr(v, w), Low(v, w);
    Split(u, w);
    Split(v, w);
    var low, wHigh := MultiplyWords(uL, vL, w);
    var high := wHigh;
    if uH != 0 {
      high := Low(high + Muluw3(vL, uH, w), w);
    }
    if vH != 0 {
      high := Low(high + Muluw3(uL, vH, w), w);
    }
    Nonnegative(Pow2(w), high);
    r := Pow2(w) * high + low;
    Combine(u, v, uH, uL, vH, vL, wHigh, low, w, high);
  }

  lemma LoopStart(x: nat, y: nat, b: nat)
    requires x < b && y < b
    ensures 0 <= x * y < b * b && Adds(Sum(0, 0, 0, x, y), b, x * y)
  {
    ProductOfWords(x, y, b);
    TimesZero(b, b);
  }

  lemma ProductOfWords(x: nat, y: nat, b: nat)
    requires x < b && y < b
    ensures 0 <= x * y < b * b
  {
    MulMonotone(x, y, b);
    MulMonotone(b, x + 1, b);
    MulAdd(b, x, 1);
  }

  lemma LowAdd(x: nat, y: nat, w: nat)
    ensures Low(x + Low(y, w), w) == Low(x + y, w)
    ensures Low(Low(x, w) + y, w) == Low(x + y, w)
  {
    Split(y, w);
    Split(x, w);
    LowOfSum(Shr(y, w), w, x + Low(y, w));
    LowOfSum(Shr(x, w), w, Low(x, w) + y);
  }

  /** The cross products only reach the high word. */
  lemma Combine(u: nat, v: nat, uH: nat, uL: nat, vH: nat, vL: nat, wH: nat, wL: nat, w: nat, high: nat)
    requires u == Pow2(w) * uH + uL && v == Pow2(w) * vH + vL
    requires Pow2(w) * wH + wL == uL * vL && wL < Pow2(w)  && wH < Pow2(w)
    requires var h1 := if uH != 0 then Low(wH + Muluw3(vL, uH, w), w) else wH;
             high == if vH != 0 then Low(h1 + Muluw3(uL, vH, w), w) else h1
    ensures Pow2(w) * high + wL == Low(u * v, 2 * w)
  {
    hide Low, Pow2;
    var b := Pow2(w);
    var x, y := vL * uH, uL * vH;
    HighWord(wH, x, uH != 0, y, vH != 0, w, high);
    var t := wH + x + y;
    Expand(b, uH, uL, vH, vL, u, v);
    MulAdd(b, wH, x);
    MulAdd(b, wH + x, y);
    Nonnegative(uH, vH);
    Nonnegative(u, v);
    Assemble(u * v, uH * vH, t, wL, w);
  }

  lemma Assemble(uv: nat, p: nat, t: nat, l: nat, w: nat)
    requires l < Pow2(w) && uv == (Pow2(w) * Pow2(w)) * p + Pow2(w) * t + l
    ensures Pow2(w) * Low(t, w) + l == Low(uv, 2 * w)
  {
    var b := Pow2(w);
    Split(t, w);
    Pow2Add(w, w);
    TopParts(b, p, t, Shr(t, w), Low(t, w), l);
    Nonnegative(b, Low(t, w));
    SplitUnique(uv, 2 * w, p + Shr(t, w), b * Low(t, w) + l);
  }

  /** The two conditional additions to the high word; a skipped one would add zero. */
  lemma HighWord(wH: nat, x: nat, addX: bool, y: nat, addY: bool, w: nat, high: nat)
    requires wH < Pow2(w) && (!addX ==> x == 0) && (!addY ==> y == 0)
    requires var h1 := if addX then Low(wH + Low(x, w), w) else wH;
             high == if addY then Low(h1 + Low(y, w), w) else h1
    ensures high == Low(wH + x + y, w)
  {
    hide Low, Pow2;
    var h1 := if addX then Low(wH + Low(x, w), w) else wH;
    LowAdd(wH, x, w);
    LowSmall(wH, w);
    assert h1 == Low(wH + x, w);
    LowAdd(h1, y, w);
    LowAdd(wH + x, y, w);
  }

  lemma Expand(b: nat, uH: nat, uL: nat, vH: nat, vL: nat, u: nat, v: nat)
    requires u == b * uH + uL && v == b * vH + vL
    ensures u * v == (b * b) * (uH * vH) + b * (vL * uH) + b * (uL * vH) + uL * vL
  {
    MulAdd(u, b * vH, vL);
    MulAdd(b * vH, b * uH, uL);
    MulAdd(vL, b * uH, uL);
    Rearrange(b, vH, b, uH);
    Rearrange(b, vH, 1, uL);
    Rearrange(1, vL, b, uH);
  }

  lemma Rearrange(a: int, b: int, c: int, d: int)
    ensures (a * b) * (c * d) == (a * c) * (b * d)
    ensures b * d == d * b
  {
    MulAssoc(a, b, c * d);
    MulAssoc(b, c, d);
    MulAssoc(c, b, d);
    MulAssoc(a, c, b * d);
  }

  lemma TopParts(b: nat, p: nat, t: nat, th: nat, tl: nat, l: nat)
    requires t == b * th + tl && tl < b && l < b
    ensures (b * b) * p + b * t + l == (b * b) * (p + th) + (b * tl + l)
    ensures b * tl + l < b * b
  {
    MulAdd(b, b * th, tl);
    MulAssoc(b, b, th);
    MulAdd(b * b, p, th);
    MulMonotone(b, tl + 1, b);
    MulAdd(b, tl, 1);
  }
}
