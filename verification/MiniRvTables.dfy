/** Words, bytes, the RV32I meaning of the lowered instructions (nemu/src/isa/riscv32/inst.c) and the lookup tables
    (abstract-machine/tools/minirv/gen-lut.c and the .rodata of inst-replace.h). */
module MiniRvTables {
  import opened Arithmetic
  import opened Bits

  const W: int := 0x1_0000_0000

  type Word = x: int | 0 <= x < W
  type Byte = x: int | 0 <= x < 256

  /** Four bytes of memory, lowest address first. */
  datatype Quad = Quad(b0: Byte, b1: Byte, b2: Byte, b3: Byte)
  {
    function At(i: nat): Byte
      requires i < 4
    {
      if i == 0 then b0 else if i == 1 then b1 else if i == 2 then b2 else b3
    }

    function With(i: nat, v: Byte): Quad
      requires i < 4
    {
      if i == 0 then this.(b0 := v)
      else if i == 1 then this.(b1 := v)
      else if i == 2 then this.(b2 := v)
      else this.(b3 := v)
    }
  }

  function Join(q: Quad): Word { q.b0 + 0x100 * q.b1 + 0x1_0000 * q.b2 + 0x100_0000 * q.b3 }

  predicate Composes(a: int, b: int, c: int, d: int, x: int)
  {
    0 <= a < 256 && 0 <= b < 256 && 0 <= c < 256 && 0 <= d < 256 && a + 0x100 * b + 0x1_0000 * c + 0x100_0000 * d == x
  }

  lemma DigitsCompose(x: Word)
    ensures Composes(x % 256, x / 0x100 % 256, x / 0x1_0000 % 256, x / 0x100_0000, x)
  {
    var y := x / 256;
    assert y / 256 == x / 0x1_0000;
    assert y / 256 / 256 == x / 0x100_0000;
  }

  lemma DigitsUnique(a: int, b: int, c: int, d: int, x: int)
    requires Composes(a, b, c, d, x)
    ensures a == x % 256 && b == x / 0x100 % 256 && c == x / 0x1_0000 % 256 && d == x / 0x100_0000
  {
    assert x == a + 256 * (b + 256 * (c + 256 * d));
    assert x / 256 == b + 256 * (c + 256 * d);
    assert x / 0x1_0000 == c + 256 * d;
  }

  lemma AllDigitsUnique(x: Word)
    ensures forall a, b, c, d :: Composes(a, b, c, d, x) ==>
              a == x % 256 && b == x / 0x100 % 256 && c == x / 0x1_0000 % 256 && d == x / 0x100_0000
  {
    forall a, b, c, d | Composes(a, b, c, d, x)
      ensures a == x % 256 && b == x / 0x100 % 256 && c == x / 0x1_0000 % 256 && d == x / 0x100_0000
    {
      DigitsUnique(a, b, c, d, x);
    }
  }

  /** The four bytes that make up a word. */
  function Bytes(x: Word): (q: Quad)
    ensures Join(q) == x
  {
    DigitsCompose(x);
    AllDigitsUnique(x);
    var a: int, b: int, c: int, d: int :|
      0 <= a < 256 && 0 <= b < 256 && 0 <= c < 256 && 0 <= d < 256 && Composes(a, b, c, d, x);
    Quad(a, b, c, d)
  }

  lemma BytesDigits(x: Word)
    ensures var q := Bytes(x);
            q.b0 == x % 256 && q.b1 == x / 0x100 % 256 && q.b2 == x / 0x1_0000 % 256 && q.b3 == x / 0x100_0000
  {
    var q := Bytes(x);
    DigitsUnique(q.b0, q.b1, q.b2, q.b3, x);
  }

  lemma BytesOfJoin(q: Quad)
    ensures Bytes(Join(q)) == q
  {
    BytesDigits(Join(q));
    DigitsUnique(q.b0, q.b1, q.b2, q.b3, Join(q));
  }

  /** What sb stores. */
  function LowByte(x: Word): Byte { x % 256 }

  // ----- what the instructions mean -----

  function AddWord(x: Word, y: Word): Word { (x + y) % W }

  function SubWord(x: Word, y: Word): Word { (x - y) % W }

  function ToSigned(x: Word): int { if x >= W / 2 then x - W else x }

  function SetIf(c: bool): Word { if c then 1 else 0 }

  predicate LessSigned(x: Word, y: Word) { ToSigned(x) < ToSigned(y) }

  predicate LessUnsigned(x: Word, y: Word) { x < y }

  /** The shift amount: the low five bits. */
  function Amount(y: Word): nat { Low(y, 5) }

  lemma AmountBound(y: Word)
    ensures Amount(y) < 32 && Amount(y) == BitAnd(y, 0x1f) && Amount(y) == Low(y % 256, 5)
  {
    assert Pow2(5) == 32 && Pow2(8) == 256;
    Split(y, 5);
    AndMask(y, 5);
    SplitUnique(y, 8, y / 256, y % 256);
    ShrShr(y, 5, 3);
    LowNested(y, 5, 8);
  }

  lemma WordPower()
    ensures Pow2(32) == W && Pow2(31) == W / 2 && Pow2(24) == 0x100_0000 && Pow2(16) == 0x1_0000 && Pow2(8) == 256
  {
    assert Pow2(8) == 256;
    Pow2Add(8, 8);
    Pow2Add(16, 8);
    Pow2Add(16, 16);
    assert Pow2(32) == 2 * Pow2(31);
  }

  /** x << s, losing what leaves the word. */
  function ShiftLeft(x: Word, s: nat): Word { Pow2(s) * x % W }

  lemma {:induction false} ShrAtMost(x: nat, s: nat)
    ensures Shr(x, s) <= x
    decreases s
  {
    if s > 0 { ShrAtMost(x / 2, s - 1); }
  }

  /** x >> s of an unsigned word. */
  function ShiftRight(x: Word, s: nat): Word
  {
    ShrAtMost(x, s);
    Shr(x, s)
  }

  /** The ones an arithmetic shift by s fills in. */
  function SignFill(s: nat): int
    requires s < 32
  {
    W - Pow2(32 - s)
  }

  /** x >> s of a signed word. */
  function ShiftRightSigned(x: Word, s: nat): Word
    requires s < 32
  {
    ShrWordBound(x, s);
    ShrAtMost(x, s);
    if x < W / 2 then Shr(x, s) else Shr(x, s) + SignFill(s)
  }

  lemma ShrWordBound(x: nat, s: nat)
    requires x < W && s < 32
    ensures Shr(x, s) < Pow2(32 - s) <= W
  {
    WordPower();
    Split(x, s);
    Pow2Add(s, 32 - s);
    Pow2Monotone(32 - s, 32);
    if Shr(x, s) >= Pow2(32 - s) { MulMonotone(Pow2(s), Pow2(32 - s), Shr(x, s)); }
  }

  /** Both right shifts divide by 2^s and round down, of the unsigned and of the signed value. */
  lemma RightShiftsDivide(x: Word, s: nat) returns (l: nat)
    requires s < 32
    ensures l < Pow2(s)
    ensures x == Pow2(s) * ShiftRight(x, s) + l
    ensures ToSigned(x) == Pow2(s) * ToSigned(ShiftRightSigned(x, s)) + l
  {
    hide Low, Shr, Pow2;
    WordPower();
    l := Low(x, s);
    Split(x, s);
    Pow2Double(31 - s);
    Pow2Add(s, 31 - s);
    Pow2Monotone(31 - s, 31);
    SignedQuotient(x, ShiftRight(x, s), l, Pow2(s), Pow2(31 - s), ShiftRightSigned(x, s));
  }

  lemma SignedQuotient(x: Word, h: Word, l: nat, p: nat, c: nat, y: Word)
    requires x == p * h + l && l < p && p * c == W / 2 && 0 < c <= W / 2
    requires y == if x < W / 2 then h else h + W - 2 * c
    ensures ToSigned(x) == p * ToSigned(y) + l
  {
    if x < W / 2 {
      if h >= c { MulMonotone(p, c, h); }
    } else {
      if h < c {
        MulMonotone(p, h + 1, c);
        MulAdd(p, h, 1);
      }
      if h >= 2 * c {
        MulMonotone(p, 2 * c, h);
        MulAdd(p, c, c);
      }
      Difference(p, h, c);
    }
  }

  lemma Difference(p: int, h: int, c: int)
    ensures p * (h - 2 * c) == p * h - 2 * (p * c)
  {
  }

  /** The three bitwise operators. */
  datatype Logic = LogicAnd | LogicOr | LogicXor
  {
    function Of(x: nat, y: nat): nat
    {
      match this
      case LogicAnd => BitAnd(x, y)
      case LogicOr => BitOr(x, y)
      case LogicXor => BitXor(x, y)
    }
  }

  lemma LogicStep(op: Logic, x: nat, y: nat)
    ensures op.Of(x, y) == op.Of(x % 2, y % 2) + 2 * op.Of(x / 2, y / 2)
    ensures op.Of(x % 2, y % 2) <= 1
  {
    assert op.Of(0, 0) == 0;
    var a, b := x % 2, y % 2;
    assert a / 2 == 0 && b / 2 == 0;
    if x == 0 { assert BitAnd(0, y / 2) == 0; }
  }

  /** A bitwise operator works on upper and lower bits separately. */
  lemma {:induction false} LogicSplit(op: Logic, k: nat, xh: nat, xl: nat, yh: nat, yl: nat)
    requires xl < Pow2(k) && yl < Pow2(k)
    ensures op.Of(Pow2(k) * xh + xl, Pow2(k) * yh + yl) == Pow2(k) * op.Of(xh, yh) + op.Of(xl, yl)
    ensures op.Of(xl, yl) < Pow2(k)
    decreases k
  {
    if k == 0 {
      assert op.Of(0, 0) == 0;
    } else {
      var p := Pow2(k - 1);
      var u, v := p * xh, p * yh;
      MulAssoc(2, p, xh);
      MulAssoc(2, p, yh);
      MulAssoc(2, p, op.Of(xh, yh));
      var x, y := 2 * u + xl, 2 * v + yl;
      assert x / 2 == u + xl / 2 && x % 2 == xl % 2 && y / 2 == v + yl / 2 && y % 2 == yl % 2;
      LogicStep(op, x, y);
      LogicStep(op, xl, yl);
      LogicSplit(op, k - 1, xh, xl / 2, yh, yl / 2);
    }
  }

  // ----- the tables -----

  datatype Table = And8 | Or8 | Xor8 | Sll8 | Srl8 | Sra8
  {
    predicate IsLogic() { And8? || Or8? || Xor8? }

    function Rows(): nat { if IsLogic() then 256 else 32 }

    /** The operator of a table with one-byte entries. */
    function Op(): Logic { if And8? then LogicAnd else if Or8? then LogicOr else LogicXor }

    function Length(): nat { if IsLogic() then 0x1_0000 else 0x8000 }
  }

  function LogicByte(op: Logic, j: Byte, i: Byte): Byte
  {
    assert Pow2(8) == 256;
    LogicSplit(op, 8, 0, j, 0, i);
    op.Of(j, i)
  }

  /** The expression gen_table writes for row j and column i of a shift table. */
  function ShiftEntry(t: Table, j: nat, i: Byte): Word
    requires !t.IsLogic() && j < 32
  {
    if t.Sll8? then ShiftLeft(i, j)
    else if t.Srl8? then ShiftRight(0x100_0000 * i, j)
    else ShiftRightSigned(0x100_0000 * i, j)
  }

  /** Byte k of a table: entries row by row, one byte each or four, little-endian. */
  function TableByte(t: Table, k: nat): Byte
    requires k < t.Length()
  {
    if t.IsLogic() then LogicByte(t.Op(), k / 256, k % 256)
    else Bytes(ShiftEntry(t, k / 1024, k / 4 % 256)).At(k % 4)
  }

  /** The bytes one fwrite puts out for row j and column i. */
  function EntryBytes(t: Table, j: nat, i: Byte): seq<Byte>
    requires j < t.Rows()
  {
    if t.IsLogic() then [LogicByte(t.Op(), j, i)]
    else var q := Bytes(ShiftEntry(t, j, i)); [q.b0, q.b1, q.b2, q.b3]
  }

  /** The first n entries of a table. */
  ghost predicate Entries(t: Table, n: nat, out: seq<Byte>)
  {
    && n <= 256 * t.Rows()
    && |out| == (if t.IsLogic() then n else 4 * n)
    && forall k :: 0 <= k < |out| ==> out[k] == TableByte(t, k)
  }

  lemma AppendEntry(t: Table, j: nat, i: Byte, out: seq<Byte>)
    requires j < t.Rows() && Entries(t, 256 * j + i, out)
    ensures Entries(t, 256 * j + i + 1, out + EntryBytes(t, j, i))
  {
    var n, e := 256 * j + i, EntryBytes(t, j, i);
    forall b | 0 <= b < |e| ensures e[b] == TableByte(t, |out| + b) {
      if t.IsLogic() { LogicEntryByte(t, j, i); } else { ShiftEntryByte(t, j, i, b); }
    }
  }

  lemma LogicEntryByte(t: Table, j: nat, i: Byte)
    requires t.IsLogic() && j < 256
    ensures TableByte(t, 256 * j + i) == EntryBytes(t, j, i)[0]
  {
    var k := 256 * j + i;
    assert k / 256 == j && k % 256 == i;
  }

  lemma ShiftEntryByte(t: Table, j: nat, i: Byte, b: nat)
    requires !t.IsLogic() && j < 32 && b < 4
    ensures TableByte(t, 4 * (256 * j + i) + b) == EntryBytes(t, j, i)[b]
  {
    var k := 4 * (256 * j + i) + b;
    assert k / 1024 == j && k / 4 == 256 * j + i && k / 4 % 256 == i && k % 4 == b;
  }

  /** gen_table: the nested loops that write a table. */
  method GenTable(t: Table) returns (out: seq<Byte>)
    ensures |out| == t.Length() && forall k :: 0 <= k < |out| ==> out[k] == TableByte(t, k)
  {
    out := [];
    var j := 0;
    while j < t.Rows()
      invariant 0 <= j <= t.Rows() && Entries(t, 256 * j, out)
    {
      var i := 0;
      while i < 256
        invariant 0 <= i <= 256 && Entries(t, 256 * j + i, out)
      {
        AppendEntry(t, j, i, out);
        out := out + EntryBytes(t, j, i);
        i := i + 1;
      }
      j := j + 1;
    }
  }

  /** What the entry for row j and column i of each table is: a byte of the operator, or the word that the four bytes
      from there make up. */
  lemma TableMeaning(j: nat, i: Byte)
    ensures j < 256 ==> TableByte(And8, 256 * j + i) == BitAnd(j, i)
    ensures j < 256 ==> TableByte(Or8, 256 * j + i) == BitOr(j, i)
    ensures j < 256 ==> TableByte(Xor8, 256 * j + i) == BitXor(j, i)
    ensures j < 32 ==> WordAt(Sll8, j, i) == Pow2(j) * i % W
    ensures j < 32 ==> exists l: nat :: Below(l, j) && 0x100_0000 * i == Pow2(j) * WordAt(Srl8, j, i) + l
    ensures j < 32 ==> exists l: nat ::
              Below(l, j) && ToSigned(0x100_0000 * i) == Pow2(j) * ToSigned(WordAt(Sra8, j, i)) + l
  {
    if j < 256 {
      LogicEntryByte(And8, j, i);
      LogicEntryByte(Or8, j, i);
      LogicEntryByte(Xor8, j, i);
    }
    if j < 32 {
      WordAtEntry(Sll8, j, i);
      WordAtEntry(Srl8, j, i);
      WordAtEntry(Sra8, j, i);
      var l := RightShiftsDivide(0x100_0000 * i, j);
      assert Below(l, j);
    }
  }

  predicate Below(l: nat, j: nat) { l < Pow2(j) }

  /** The little-endian word of an entry of a shift table. */
  function WordAt(t: Table, j: nat, i: Byte): Word
    requires !t.IsLogic() && j < 32
  {
    var k := 4 * (256 * j + i);
    Join(Quad(TableByte(t, k), TableByte(t, k + 1), TableByte(t, k + 2), TableByte(t, k + 3)))
  }

  lemma WordAtEntry(t: Table, j: nat, i: Byte)
    requires !t.IsLogic() && j < 32
    ensures WordAt(t, j, i) == ShiftEntry(t, j, i)
  {
    hide TableByte, ShiftEntry, Bytes, Join;
    ShiftEntryByte(t, j, i, 0);
    ShiftEntryByte(t, j, i, 1);
    ShiftEntryByte(t, j, i, 2);
    ShiftEntryByte(t, j, i, 3);
    var q := Bytes(ShiftEntry(t, j, i));
    assert Quad(q.b0, q.b1, q.b2, q.b3) == q;
  }

  // ----- why the expansions compute the right thing -----

  /** Bytewise lookup is the 32-bit operator. */
  lemma LogicByBytes(op: Logic, x: Word, y: Word)
    ensures var p, q := Bytes(x), Bytes(y);
            op.Of(x, y) == Join(Quad(LogicByte(op, p.b0, q.b0), LogicByte(op, p.b1, q.b1),
                                     LogicByte(op, p.b2, q.b2), LogicByte(op, p.b3, q.b3)))
  {
    hide BitAnd, BitOr, BitXor, Bytes;
    var p, q := Bytes(x), Bytes(y);
    assert Pow2(8) == 256;
    var x3, y3 := p.b3, q.b3;
    var x2, y2 := 256 * x3 + p.b2, 256 * y3 + q.b2;
    var x1, y1 := 256 * x2 + p.b1, 256 * y2 + q.b1;
    LogicSplit(op, 8, x3, p.b2, y3, q.b2);
    LogicSplit(op, 8, x2, p.b1, y2, q.b1);
    LogicSplit(op, 8, x1, p.b0, y1, q.b0);
  }

  lemma XorOfOnes(b: Byte)
    ensures LogicByte(LogicXor, 255, b) == 255 - b
  {
    assert Pow2(8) == 256;
    XorOnes(b, 8);
    XorSymmetric(255, b);
  }

  lemma {:induction false} XorSymmetric(x: nat, y: nat)
    ensures BitXor(x, y) == BitXor(y, x)
    decreases x + y
  {
    if x > 0 || y > 0 { XorSymmetric(x / 2, y / 2); }
  }

  /** Shifting right is additive over operands without common bits. */
  lemma {:induction false} ShrAdd(m: nat, a: nat, b: nat, s: nat)
    requires b < Pow2(m)
    ensures Shr(Pow2(m) * a + b, s) == Shr(Pow2(m) * a, s) + Shr(b, s)
    decreases s
  {
    if s > 0 {
      if m == 0 {
        LowSmall(0, s);
      } else {
        MulAssoc(2, Pow2(m - 1), a);
        var u := Pow2(m - 1) * a;
        assert (2 * u + b) / 2 == u + b / 2 && 2 * u / 2 == u;
        ShrAdd(m - 1, a, b / 2, s - 1);
      }
    }
  }

  /** So is taking the low bits. */
  lemma {:induction false} LowAdd(m: nat, a: nat, b: nat, n: nat)
    requires b < Pow2(m)
    ensures Low(Pow2(m) * a + b, n) == Low(Pow2(m) * a, n) + Low(b, n)
    decreases n
  {
    if n > 0 {
      if m == 0 {
        LowSmall(0, n);
      } else {
        MulAssoc(2, Pow2(m - 1), a);
        var u := Pow2(m - 1) * a;
        assert (2 * u + b) / 2 == u + b / 2 && 2 * u / 2 == u && 2 * u % 2 == 0 && (2 * u + b) % 2 == b % 2;
        LowAdd(m - 1, a, b / 2, n - 1);
      }
    }
  }

  /** And taking low bits after shifting right. */
  lemma {:induction false} FieldAdd(m: nat, a: nat, b: nat, s: nat, n: nat)
    requires b < Pow2(m)
    ensures Low(Shr(Pow2(m) * a + b, s), n) == Low(Shr(Pow2(m) * a, s), n) + Low(Shr(b, s), n)
    decreases s
  {
    if s == 0 {
      LowAdd(m, a, b, n);
    } else if m == 0 {
      LowSmall(0, s);
      LowSmall(0, n);
    } else {
      MulAssoc(2, Pow2(m - 1), a);
      var u := Pow2(m - 1) * a;
      assert (2 * u + b) / 2 == u + b / 2 && 2 * u / 2 == u;
      FieldAdd(m - 1, a, b / 2, s - 1, n);
    }
  }

  /** The bytes of a word as bit fields. */
  lemma ByteFields(y: Word)
    ensures var q := Bytes(y);
            && q.b0 == Low(y, 8) && q.b1 == Low(Shr(y, 8), 8)
            && q.b2 == Low(Shr(y, 16), 8) && q.b3 == Shr(y, 24)
  {
    hide Shr, Low, Pow2, Bytes;
    WordPower();
    BytesDigits(y);
    SplitUnique(y, 8, y / 256, y % 256);
    var z := y / 256;
    assert y / 0x1_0000 == z / 256 && y / 0x100_0000 == z / 256 / 256;
    SplitUnique(z, 8, z / 256, z % 256);
    ShrShr(y, 8, 8);
    SplitUnique(z / 256, 8, z / 256 / 256, z / 256 % 256);
    ShrShr(y, 16, 8);
  }

  /** Of the entry for byte b, shifted down by k more bits, what remains is what b contributes from k bits lower. */
  lemma EntryField(b: Byte, s: nat, k: nat, c: nat, m: nat)
    requires Pow2(k) == c && c * m == 0x100_0000
    ensures Shr(ShiftRight(0x100_0000 * b, s), k) == Shr(m * b, s)
  {
    var x, h := 0x100_0000 * b, m * b;
    MulAssoc(c, m, b);
    assert x == Pow2(k) * h + 0;
    SplitUnique(x, k, h, 0);
    ShrShr(x, s, k);
    ShrShr(x, k, s);
  }

  /** What the entries for bytes 2, 1 and 0 contribute to byte 0 of the result. */
  lemma ResultByte0(x2: Byte, x1: Byte, x0: Byte, s: nat)
    ensures Low(Shr(0x1_0000 * x2 + 0x100 * x1 + x0, s), 8)
         == Low(Shr(0x1_0000 * x2, s), 8) + Low(Shr(0x100 * x1, s), 8) + Low(Shr(x0, s), 8)
  {
    WordPower();
    var l := 0x100 * x1 + x0;
    FieldAdd(8, x1, x0, s, 8);
    FieldAdd(16, x2, l, s, 8);
    assert Pow2(16) * x2 == 0x1_0000 * x2 && Pow2(8) * x1 == 0x100 * x1;
  }

  lemma ResultByte1(x2: Byte, x1: Byte, x0: Byte, s: nat)
    ensures Low(Shr(Shr(0x1_0000 * x2 + 0x100 * x1 + x0, s), 8), 8)
         == Low(Shr(0x1_0000 * x2, s + 8), 8) + Low(Shr(0x100 * x1, s + 8), 8)
  {
    WordPower();
    var y := 0x1_0000 * x2 + 0x100 * x1 + x0;
    ShrShr(y, s, 8);
    ResultByte0(x2, x1, x0, s + 8);
    SmallShr(x0, s + 8, 8);
    LowSmall(0, 8);
  }

  lemma ResultByte2(x2: Byte, x1: Byte, x0: Byte, s: nat)
    ensures Shr(Shr(0x1_0000 * x2 + 0x100 * x1 + x0, s), 16) == Shr(0x1_0000 * x2, s + 16)
  {
    WordPower();
    ShrShr(0x1_0000 * x2 + 0x100 * x1 + x0, s, 16);
    ShrAdd(16, x2, 0x100 * x1 + x0, s + 16);
    SmallShr(0x100 * x1 + x0, s + 16, 16);
  }

  /** Bytes 0 to 2 of the result, added up from the three lower entries without carry. */
  lemma LowerBytes(x2: Byte, x1: Byte, x0: Byte, s: nat)
    requires s < 32
    ensures var q2, q1, q0 := Bytes(ShiftRight(0x100_0000 * x2, s)), Bytes(ShiftRight(0x100_0000 * x1, s)),
                              Bytes(ShiftRight(0x100_0000 * x0, s));
            var z := Shr(0x1_0000 * x2 + 0x100 * x1 + x0, s);
            && q2.b1 + q1.b2 + q0.b3 == Low(z, 8)
            && q2.b2 + q1.b3 == Low(Shr(z, 8), 8)
            && q2.b3 == Shr(z, 16)
  {
    EntryFields2(x2, s);
    EntryFields1(x1, s);
    EntryFields0(x0, s);
    ResultByte0(x2, x1, x0, s);
    ResultByte1(x2, x1, x0, s);
    ResultByte2(x2, x1, x0, s);
  }

  lemma ThreeBytes(z: nat)
    ensures z == Low(z, 8) + 0x100 * Low(Shr(z, 8), 8) + 0x1_0000 * Shr(z, 16)
    ensures Low(z, 8) < 256 && Low(Shr(z, 8), 8) < 256
  {
    assert Pow2(8) == 256;
    Split(z, 8);
    Split(Shr(z, 8), 8);
    ShrShr(z, 8, 8);
  }

  lemma SmallShr(x: nat, s: nat, n: nat)
    requires x < Pow2(n) && n <= s
    ensures Shr(x, s) == 0
  {
    Pow2Monotone(n, s);
    LowSmall(x, s);
  }

  lemma EntryFields2(b: Byte, s: nat)
    requires s < 32
    ensures var q := Bytes(ShiftRight(0x100_0000 * b, s));
            && q.b1 == Low(Shr(0x1_0000 * b, s), 8)
            && q.b2 == Low(Shr(0x1_0000 * b, s + 8), 8)
            && q.b3 == Shr(0x1_0000 * b, s + 16)
  {
    WordPower();
    var y := ShiftRight(0x100_0000 * b, s);
    ByteFields(y);
    EntryField(b, s, 8, 0x100, 0x1_0000);
    ShrShr(y, 8, 8);
    ShrShr(0x1_0000 * b, s, 8);
    ShrShr(y, 8, 16);
    ShrShr(0x1_0000 * b, s, 16);
  }

  lemma EntryFields1(b: Byte, s: nat)
    requires s < 32
    ensures var q := Bytes(ShiftRight(0x100_0000 * b, s));
            q.b2 == Low(Shr(0x100 * b, s), 8) && q.b3 == Low(Shr(0x100 * b, s + 8), 8)
  {
    WordPower();
    var y := ShiftRight(0x100_0000 * b, s);
    ByteFields(y);
    EntryField(b, s, 16, 0x1_0000, 0x100);
    ShrShr(y, 16, 8);
    ShrShr(0x100 * b, s, 8);
    LowSmall(Bytes(y).b3, 8);
  }

  lemma EntryFields0(b: Byte, s: nat)
    requires s < 32
    ensures Bytes(ShiftRight(0x100_0000 * b, s)).b3 == Low(Shr(b, s), 8)
  {
    WordPower();
    ByteFields(ShiftRight(0x100_0000 * b, s));
    EntryField(b, s, 24, 0x100_0000, 1);
    assert 1 * b == b;
    ShrAtMost(b, s);
    LowSmall(Shr(b, s), 8);
  }

  /** The four entries recombine, by addition, to the logical right shift. */
  lemma SrlRecombines(x: Word, s: nat)
    requires s < 32
    ensures var p := Bytes(x);
            var q2, q1, q0 := Bytes(ShiftRight(0x100_0000 * p.b2, s)), Bytes(ShiftRight(0x100_0000 * p.b1, s)),
                              Bytes(ShiftRight(0x100_0000 * p.b0, s));
            && q2.b1 + q1.b2 + q0.b3 < 256 && q2.b2 + q1.b3 < 256
            && Join(Quad(q2.b1 + q1.b2 + q0.b3, q2.b2 + q1.b3, q2.b3, 0)) + ShiftRight(0x100_0000 * p.b3, s)
               == ShiftRight(x, s)
  {
    WordPower();
    var p := Bytes(x);
    LowerBytes(p.b2, p.b1, p.b0, s);
    ThreeBytes(Shr(0x1_0000 * p.b2 + 0x100 * p.b1 + p.b0, s));
    TopByte(x, s);
  }

  lemma TopByte(x: Word, s: nat)
    ensures var p := Bytes(x);
            ShiftRight(x, s) == ShiftRight(0x100_0000 * p.b3, s) + Shr(0x1_0000 * p.b2 + 0x100 * p.b1 + p.b0, s)
  {
    WordPower();
    var p := Bytes(x);
    ShrAdd(24, p.b3, 0x1_0000 * p.b2 + 0x100 * p.b1 + p.b0, s);
    assert x == Join(p);
  }

  /** With the sign-extended entry for the top byte, to the arithmetic right shift. */
  lemma SraTopEntry(x: Word, s: nat)
    requires s < 32
    ensures var b := Bytes(x).b3;
            ShiftRightSigned(0x100_0000 * b, s) - ShiftRight(0x100_0000 * b, s)
              == ShiftRightSigned(x, s) - ShiftRight(x, s)
  {
    var p := Bytes(x);
    assert x == 0x100_0000 * p.b3 + (x % 0x100_0000);
  }

  /** The four entries of the left-shift table, moved to their places, add up to the left shift. */
  lemma SllRecombines(x: Word, s: nat)
    requires s < 32
    ensures var p := Bytes(x);
            var e3, e2, e1, e0 := ShiftLeft(p.b3, s), ShiftLeft(p.b2, s), ShiftLeft(p.b1, s), ShiftLeft(p.b0, s);
            AddWord(AddWord(AddWord(0x100_0000 * (e3 % 256), 0x1_0000 * (e2 % 0x1_0000)), ShiftLeft(e1, 8)), e0)
              == ShiftLeft(x, s)
  {
    WordPower();
    var p, f := Bytes(x), Pow2(s);
    ShiftedByte(f, p.b3, s);
    ShiftedByte(f, p.b2, s);
    ShiftedByte(f, p.b1, s);
    ShiftedByte(f, p.b0, s);
    ScaledBytes(f, p);
    var x3, x2, x1, x0 := f * p.b3, f * p.b2, f * p.b1, f * p.b0;
    SumOfEntries(ShiftLeft(p.b3, s), ShiftLeft(p.b2, s), ShiftLeft(p.b1, s), ShiftLeft(p.b0, s), x3, x2, x1, x0,
                 f * x, ShiftLeft(ShiftLeft(p.b1, s), 8));
  }

  lemma SumOfEntries(e3: Word, e2: Word, e1: Word, e0: Word, x3: nat, x2: nat, x1: nat, x0: nat, t: int, c: Word)
    requires e3 == x3 % W && e2 == x2 % W && e1 == x1 % W && e0 == x0 % W && c == 256 * e1 % W
    requires t == 0x100_0000 * x3 + 0x1_0000 * x2 + 0x100 * x1 + x0
    ensures AddWord(AddWord(AddWord(0x100_0000 * (e3 % 256), 0x1_0000 * (e2 % 0x1_0000)), c), e0) == t % W
  {
    SumOfShifted(x3, x2, x1, x0);
  }

  lemma ShiftedByte(f: nat, b: Byte, s: nat)
    requires f == Pow2(s)
    ensures f * b >= 0 && ShiftLeft(b, s) == (f * b) % W
  {
    Nonnegative(f, b);
  }

  lemma ScaledBytes(f: nat, p: Quad)
    ensures f * Join(p) == 0x100_0000 * (f * p.b3) + 0x1_0000 * (f * p.b2) + 0x100 * (f * p.b1) + f * p.b0
  {
  }

  lemma SumOfShifted(x3: nat, x2: nat, x1: nat, x0: nat)
    ensures (((0x100_0000 * (x3 % W % 256) + 0x1_0000 * (x2 % W % 0x1_0000)) % W + 256 * (x1 % W) % W) % W + x0 % W) % W
         == (0x100_0000 * x3 + 0x1_0000 * x2 + 0x100 * x1 + x0) % W
  {
    var a, b, c := 0x100_0000 * x3, 0x1_0000 * x2, 0x100 * x1;
    ScaleMod24(x3);
    ScaleMod16(x2);
    ScaleMod8(x1);
    AddMod(W, a, b);
    AddMod(W, a + b, c);
    AddMod(W, a + b + c, x0);
  }

  lemma ScaleMod24(x: nat)
    ensures 0x100_0000 * (x % W % 256) == (0x100_0000 * x) % W
  {
    var h, l := x / 256, x % 256;
    assert x % W % 256 == l;
    assert 0x100_0000 * x == W * h + 0x100_0000 * l;
  }

  lemma ScaleMod16(x: nat)
    ensures 0x1_0000 * (x % W % 0x1_0000) == (0x1_0000 * x) % W
  {
    var h, l := x / 0x1_0000, x % 0x1_0000;
    assert x % W % 0x1_0000 == l;
    assert 0x1_0000 * x == W * h + 0x1_0000 * l;
  }

  lemma ScaleMod8(x: nat)
    ensures 256 * (x % W) % W == (256 * x) % W
  {
    var h, l := x / W, x % W;
    assert 256 * x == W * (256 * h) + 256 * l;
  }
}
