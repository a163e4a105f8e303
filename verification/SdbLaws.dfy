/** What the debugger's operators compute, how tightly they bind and when an expression succeeds, read off the tokens
    (nemu/src/monitor/sdb/expr.c). */
module SdbLaws {
  import opened Arithmetic
  import opened SdbSyntax
  import opened SdbEval
  import opened SdbMeaning

  /** What expr answers for a nonempty row of tokens. */
  ghost function Answer(s: seq<Token>, env: Env): Outcome { EvalTokens(Retagged(s), env, true) }

  /** A single token. */
  lemma Atoms(t: Token, env: Env)
    ensures t.Num? ==> Answer([t], env) == Ran(t.value, true)
    ensures t.Reg? && t.name in env.regs ==> Answer([t], env) == Ran(env.regs[t.name], true)
    ensures t.Reg? && t.name !in env.regs ==> Answer([t], env) == Ran(0, false)
    ensures !t.Num? && !t.Reg? ==> Answer([t], env) == Abort
  {
    assert Retagged([t])[0] == Retag([t], 0);
  }

  lemma Parentheses(a: Ast, env: Env)
    requires a.WellFormed()
    ensures Answer([LParen] + RenderRaw(a) + [RParen], env) == Answer(RenderRaw(a), env)
  {
    ExprIsNested(a, env);
    ExprIsNested(Paren(a), env);
  }

  // ----- the operators -----

  /** A number, a register, or anything in parentheses. */
  predicate Closed(a: Ast) { a.WellFormed() && a.Level() == 8 }

  function Infix(l: Ast, op: BinOp, r: Ast): seq<Token> { RenderRaw(l) + [Binary(op)] + RenderRaw(r) }

  /** Both operands have a value. */
  ghost predicate Values(l: Ast, x: Word, r: Ast, y: Word, env: Env)
  {
    Closed(l) && Closed(r) && Answer(RenderRaw(l), env) == Ran(x, true) && Answer(RenderRaw(r), env) == Ran(y, true)
  }

  lemma InfixAnswer(l: Ast, x: Word, op: BinOp, r: Ast, y: Word, env: Env)
    requires Values(l, x, r, y, env)
    ensures Answer(Infix(l, op, r), env) == Apply(op, x, y, true)
  {
    hide Apply, Retagged, EvalTokens;
    ExprIsNested(l, env);
    ExprIsNested(r, env);
    ExprIsNested(Bin(op, l, r), env);
    assert Nested(Bin(op, l, r)) == Bin(op, Nested(l), Nested(r));
  }

  /** Differences, sums and products of words wrap around. */
  lemma WordArithmetic(l: Ast, x: Word, r: Ast, y: Word, env: Env)
    requires Values(l, x, r, y, env)
    ensures var d := Answer(Infix(l, MinusOp, r), env); d.Ran? && d.ok && (d.value + y) % WORD == x
    ensures var s := Answer(Infix(l, PlusOp, r), env); s.Ran? && s.ok && (s.value - y) % WORD == x
    ensures var p := Answer(Infix(l, StarOp, r), env); p.Ran? && p.ok && (p.value - x * y) % WORD == 0
  {
    hide Answer, Values, Infix;
    InfixAnswer(l, x, MinusOp, r, y, env);
    InfixAnswer(l, x, PlusOp, r, y, env);
    InfixAnswer(l, x, StarOp, r, y, env);
    WrapAround(x, y);
  }

  lemma WrapAround(x: Word, y: Word)
    ensures ((x - y) % WORD + y) % WORD == x && ((x + y) % WORD - y) % WORD == x
    ensures ((x * y) % WORD - x * y) % WORD == 0
  {
    AddModLeft(WORD, x - y, y);
    AddModLeft(WORD, x + y, 0 - y);
    AddModLeft(WORD, x * y, -(x * y));
    SmallMod(WORD, x);
  }

  /** The logical operators and the comparisons answer 1 or 0; the order is that of the signed values. */
  lemma WordTests(l: Ast, x: Word, r: Ast, y: Word, env: Env)
    requires Values(l, x, r, y, env)
    ensures Answer(Infix(l, OrOp, r), env) == Ran(if x == 0 == y then 0 else 1, true)
    ensures Answer(Infix(l, AndOp, r), env) == Ran(if x == 0 || y == 0 then 0 else 1, true)
    ensures Answer(Infix(l, EqOp, r), env) == Ran(if x == y then 1 else 0, true)
    ensures Answer(Infix(l, NeqOp, r), env) == Ran(if x == y then 0 else 1, true)
    ensures Answer(Infix(l, LtOp, r), env) == Ran(if Signed(x) < Signed(y) then 1 else 0, true)
    ensures Answer(Infix(l, GeOp, r), env) == Ran(if Signed(x) < Signed(y) then 0 else 1, true)
    ensures Answer(Infix(l, GtOp, r), env) == Ran(if Signed(y) < Signed(x) then 1 else 0, true)
    ensures Answer(Infix(l, LeOp, r), env) == Ran(if Signed(y) < Signed(x) then 0 else 1, true)
  {
    hide Answer, Values, Infix;
    InfixAnswer(l, x, OrOp, r, y, env);
    InfixAnswer(l, x, AndOp, r, y, env);
    InfixAnswer(l, x, EqOp, r, y, env);
    InfixAnswer(l, x, NeqOp, r, y, env);
    InfixAnswer(l, x, LtOp, r, y, env);
    InfixAnswer(l, x, GeOp, r, y, env);
    InfixAnswer(l, x, GtOp, r, y, env);
    InfixAnswer(l, x, LeOp, r, y, env);
  }

  function Abs(a: int): nat { if a < 0 then -a else a }

  /** q is a / b rounded towards zero: the remainder is smaller than b and has the sign of a. */
  predicate Truncates(a: int, b: int, q: int)
  {
    Abs(a - q * b) < Abs(b) && (a - q * b == 0 || (a - q * b < 0 <==> a < 0))
  }

  /** Division of signed words; it aborts for the divisor 0 and where the quotient does not fit. */
  lemma WordDivision(l: Ast, x: Word, r: Ast, y: Word, env: Env)
    requires Values(l, x, r, y, env)
    ensures var d := Answer(Infix(l, SlashOp, r), env);
            if y == 0 || (Signed(x) == -0x8000_0000 && Signed(y) == -1) then d == Abort
            else d.Ran? && d.ok && Truncates(Signed(x), Signed(y), Signed(d.value))
  {
    hide Answer, Values, Infix;
    InfixAnswer(l, x, SlashOp, r, y, env);
    if y != 0 && !(Signed(x) == -0x8000_0000 && Signed(y) == -1) { QuotientTruncates(Signed(x), Signed(y)); }
  }

  lemma QuotientTruncates(a: int, b: int)
    requires -0x8000_0000 <= a < 0x8000_0000 && -0x8000_0000 <= b < 0x8000_0000
    requires b != 0 && !(a == -0x8000_0000 && b == -1)
    ensures Truncates(a, b, Signed(Quotient(a, b)))
  {
    hide Truncates, Signed;
    var k: int := Abs(a) / Abs(b);
    var q := if (a < 0) == (b < 0) then k else -k;
    assert Quotient(a, b) == q % WORD;
    MagnitudeBound(Abs(a), Abs(b), k);
    QuotientFits(a, b, k, q);
    SignedUnique(q);
    SignTimes(a, b, k);
    RemainderSmall(a, b, q, k * Abs(b));
  }

  lemma QuotientFits(a: int, b: int, k: int, q: int)
    requires -0x8000_0000 <= a < 0x8000_0000 && b != 0 && !(a == -0x8000_0000 && b == -1)
    requires 0 <= k <= Abs(a) && (Abs(b) >= 2 ==> 2 * k <= Abs(a)) && q == if (a < 0) == (b < 0) then k else -k
    ensures -0x8000_0000 <= q < 0x8000_0000
  {
  }

  lemma RemainderSmall(a: int, b: int, q: int, product: int)
    requires 0 <= Abs(a) - product < Abs(b) && q * b == if a < 0 then -product else product
    ensures Truncates(a, b, q)
  {
  }

  lemma SignedUnique(q: int)
    requires -0x8000_0000 <= q < 0x8000_0000
    ensures Signed(q % WORD) == q
  {
  }

  lemma SignTimes(a: int, b: int, k: int)
    ensures (if (a < 0) == (b < 0) then k else -k) * b == if a < 0 then -(k * Abs(b)) else k * Abs(b)
  {
  }

  lemma MagnitudeBound(m: nat, n: nat, k: int)
    requires n > 0 && k == m / n
    ensures 0 <= k <= m && (n >= 2 ==> 2 * k <= m) && 0 <= m - k * n < n
  {
    assert 0 <= m - k * n < n;
    if n >= 2 { MulMonotone(k, 2, n); } else { assert n == 1; }
  }

  /** Negation and dereferencing. */
  lemma WordPrefixes(r: Ast, y: Word, env: Env)
    requires Closed(r) && Answer(RenderRaw(r), env) == Ran(y, true)
    ensures var n := Answer([Binary(MinusOp)] + RenderRaw(r), env); n.Ran? && n.ok && (n.value + y) % WORD == 0
    ensures Answer([Binary(StarOp)] + RenderRaw(r), env) == Ran(env.mem(y), true)
  {
    hide Retagged, EvalTokens;
    ExprIsNested(r, env);
    PrefixNested(r, Neg, env);
    PrefixNested(r, Deref, env);
  }

  lemma PrefixNested(r: Ast, u: UnOp, env: Env)
    requires Closed(r)
    ensures Answer([Binary(if u == Neg then MinusOp else StarOp)] + RenderRaw(r), env)
         == MeaningUn(u, Meaning(Nested(r), env, true), env)
  {
    hide Retagged, EvalTokens;
    ExprIsNested(Un(u, r), env);
    assert Nested(Un(u, r)) == Un(u, Nested(r));
  }

  // ----- binding -----

  /** The operators from the loosest to the tightest. */
  const LEVELS: seq<set<BinOp>> :=
    [{OrOp}, {AndOp}, {EqOp, NeqOp}, {LeOp, GeOp, LtOp, GtOp}, {PlusOp, MinusOp}, {StarOp, SlashOp}]

  /** In x p y q z the operator q takes y: it binds tighter, or both are '*' or '/'. */
  predicate TakesMiddle(p: BinOp, q: BinOp)
  {
    exists i, j :: 0 <= i <= j < |LEVELS| && p in LEVELS[i] && q in LEVELS[j] && (i == j ==> i == 5)
  }

  lemma LevelOf(p: BinOp, i: nat)
    requires i < |LEVELS|
    ensures p in LEVELS[i] <==> OpPrecedence(p) == i + 1
  {
  }

  lemma TakesMiddleExact(p: BinOp, q: BinOp)
    ensures TakesMiddle(p, q) <==> OpPrecedence(p) < OpPrecedence(q) || OpPrecedence(p) == OpPrecedence(q) == 6
  {
    hide OpPrecedence;
    forall i: nat | i < |LEVELS|
      ensures (p in LEVELS[i] <==> OpPrecedence(p) == i + 1) && (q in LEVELS[i] <==> OpPrecedence(q) == i + 1)
    {
      LevelOf(p, i);
      LevelOf(q, i);
    }
    assert p in LEVELS[OpPrecedence(p) - 1] && q in LEVELS[OpPrecedence(q) - 1];
  }

  /** How x p y q z is read. */
  lemma ThreeOperands(x: Token, p: BinOp, y: Token, q: BinOp, z: Token, env: Env)
    requires Lit(x).WellFormed() && Lit(y).WellFormed() && Lit(z).WellFormed()
    ensures Answer([x, Binary(p), y, Binary(q), z], env)
         == if TakesMiddle(p, q) then Answer([x, Binary(p), LParen, y, Binary(q), z, RParen], env)
            else Answer([LParen, x, Binary(p), y, RParen, Binary(q), z], env)
  {
    hide EvalTokens, Retagged, TakesMiddle, Nested, RenderRaw;
    TakesMiddleExact(p, q);
    if TakesMiddle(p, q) {
      RightRead(x, p, y, q, z, env);
      var inner := Bin(q, Lit(y), Lit(z));
      TwoOperands(y, q, z);
      InParens(inner);
      ExprIsNested(Bin(p, Lit(x), Paren(inner)), env);
      Joined(Lit(x), p, Paren(inner));
      OneOperand(x);
      assert [x] + [Binary(p)] + ([LParen] + [y, Binary(q), z] + [RParen])
          == [x, Binary(p), LParen, y, Binary(q), z, RParen];
      ParenMeaning(Lit(x), p, inner, env);
    } else {
      LeftRead(x, p, y, q, z, env);
      var inner := Bin(p, Lit(x), Lit(y));
      TwoOperands(x, p, y);
      InParens(inner);
      ExprIsNested(Bin(q, Paren(inner), Lit(z)), env);
      Joined(Paren(inner), q, Lit(z));
      OneOperand(z);
      assert ([LParen] + [x, Binary(p), y] + [RParen]) + [Binary(q)] + [z]
          == [LParen, x, Binary(p), y, RParen, Binary(q), z];
    }
  }

  lemma ParenMeaning(l: Ast, op: BinOp, r: Ast, env: Env)
    ensures Meaning(Bin(op, l, Paren(r)), env, true) == Meaning(Bin(op, l, r), env, true)
  {
    var x := Meaning(l, env, true);
    assert !x.Abort? ==> Meaning(Paren(r), env, x.ok) == Meaning(r, env, x.ok);
  }

  lemma OneOperand(t: Token)
    requires Lit(t).WellFormed()
    ensures RenderRaw(Lit(t)) == [t] && Nested(Lit(t)) == Lit(t)
  {
  }

  lemma InParens(a: Ast)
    requires a.WellFormed()
    ensures RenderRaw(Paren(a)) == [LParen] + RenderRaw(a) + [RParen] && Nested(Paren(a)) == Paren(Nested(a))
    ensures Paren(a).WellFormed() && Paren(a).Level() == 8
  {
  }

  lemma Joined(l: Ast, op: BinOp, r: Ast)
    requires l.WellFormed() && r.WellFormed() && l.Level() >= OpPrecedence(op) && r.Level() > OpPrecedence(op)
    requires OpPrecedence(op) == 6 ==> !IsProduct(l)
    ensures Bin(op, l, r).WellFormed() && Nested(Bin(op, l, r)) == Bin(op, Nested(l), Nested(r))
    ensures RenderRaw(Bin(op, l, r)) == RenderRaw(l) + [Binary(op)] + RenderRaw(r)
  {
  }

  lemma TwoOperands(x: Token, p: BinOp, y: Token)
    requires Lit(x).WellFormed() && Lit(y).WellFormed()
    ensures var e := Bin(p, Lit(x), Lit(y)); e.WellFormed() && Nested(e) == e && RenderRaw(e) == [x, Binary(p), y]
  {
    hide Nested, RenderRaw;
    OneOperand(x);
    OneOperand(y);
    Joined(Lit(x), p, Lit(y));
  }

  lemma RightRead(x: Token, p: BinOp, y: Token, q: BinOp, z: Token, env: Env)
    requires Lit(x).WellFormed() && Lit(y).WellFormed() && Lit(z).WellFormed()
    requires OpPrecedence(p) < OpPrecedence(q) || OpPrecedence(p) == OpPrecedence(q) == 6
    ensures Answer([x, Binary(p), y, Binary(q), z], env)
         == Meaning(Bin(p, Lit(x), Bin(q, Lit(y), Lit(z))), env, true)
  {
    hide EvalTokens, Retagged, Meaning, Nested, RenderRaw;
    OneOperand(x);
    OneOperand(z);
    TwoOperands(y, q, z);
    if OpPrecedence(p) == 6 {
      ProductOfThree(x, p, y, q, z);
      ExprIsNested(Bin(q, Bin(p, Lit(x), Lit(y)), Lit(z)), env);
    } else {
      Joined(Lit(x), p, Bin(q, Lit(y), Lit(z)));
      assert [x] + [Binary(p)] + [y, Binary(q), z] == [x, Binary(p), y, Binary(q), z];
      ExprIsNested(Bin(p, Lit(x), Bin(q, Lit(y), Lit(z))), env);
    }
  }

  lemma ProductOfThree(x: Token, p: BinOp, y: Token, q: BinOp, z: Token)
    requires Lit(x).WellFormed() && Lit(y).WellFormed() && Lit(z).WellFormed()
    requires OpPrecedence(p) == OpPrecedence(q) == 6
    ensures var e := Bin(q, Bin(p, Lit(x), Lit(y)), Lit(z));
            && e.WellFormed() && Nested(e) == Bin(p, Lit(x), Bin(q, Lit(y), Lit(z)))
            && RenderRaw(e) == [x, Binary(p), y, Binary(q), z]
  {
    var e := Bin(q, Bin(p, Lit(x), Lit(y)), Lit(z));
    TwoOperands(x, p, y);
    TwoOperands(y, q, z);
    OneOperand(x);
    OneOperand(z);
    assert First(e) == Lit(x) && FirstOp(e) == p && Rest(e) == Bin(q, Lit(y), Lit(z));
    assert RenderRaw(e) == [x, Binary(p), y] + [Binary(q)] + [z];
  }

  lemma LeftRead(x: Token, p: BinOp, y: Token, q: BinOp, z: Token, env: Env)
    requires Lit(x).WellFormed() && Lit(y).WellFormed() && Lit(z).WellFormed()
    requires OpPrecedence(q) < OpPrecedence(p) || OpPrecedence(p) == OpPrecedence(q) < 6
    ensures Answer([x, Binary(p), y, Binary(q), z], env)
         == Meaning(Bin(q, Bin(p, Lit(x), Lit(y)), Lit(z)), env, true)
  {
    hide EvalTokens, Retagged, Meaning, Nested, RenderRaw;
    OneOperand(z);
    TwoOperands(x, p, y);
    Joined(Bin(p, Lit(x), Lit(y)), q, Lit(z));
    assert [x, Binary(p), y] + [Binary(q)] + [z] == [x, Binary(p), y, Binary(q), z];
    ExprIsNested(Bin(q, Bin(p, Lit(x), Lit(y)), Lit(z)), env);
  }

  // ----- success -----

  predicate Found(s: seq<Token>, env: Env) { forall i :: 0 <= i < |s| && s[i].Reg? ==> s[i].name in env.regs }

  lemma FoundConcat(s: seq<Token>, t: seq<Token>, env: Env)
    ensures Found(s + t, env) <==> Found(s, env) && Found(t, env)
  {
    if Found(s + t, env) {
      assert forall i :: 0 <= i < |s| ==> (s + t)[i] == s[i];
      assert forall i :: 0 <= i < |t| ==> (s + t)[|s| + i] == t[i];
    }
  }

  lemma {:induction false} NestedSuccess(a: Ast, env: Env, ok: bool)
    requires a.WellFormed()
    ensures var m := Meaning(Nested(a), env, ok);
            if m.Abort? then Binary(SlashOp) in Render(a) else m.ok <==> ok && Found(Render(a), env)
    decreases a.Size()
  {
    if !ok { return; }
    match a
    case Lit(t) =>
      assert Found([t], env) <==> (t.Reg? ==> t.name in env.regs) by { assert [t][0] == t; }
    case Paren(b) =>
      NestedSuccess(b, env, ok);
      FoundConcat([LParen] + Render(b), [RParen], env);
      FoundConcat([LParen], Render(b), env);
    case Un(_, _) =>
      SplitUnaries(a);
      NestedSuccess(Operand(a), env, ok);
      FoundConcat(Unaries(a), Render(Operand(a)), env);
    case Bin(op, l, r) =>
      if IsProduct(a) {
        SplitFirst(a);
        InfixSuccess(First(a), FirstOp(a), Rest(a), env, a.Size());
      } else {
        InfixSuccess(l, op, r, env, a.Size());
      }
  }

  lemma InfixSuccess(l: Ast, op: BinOp, r: Ast, env: Env, bound: nat)
    requires l.WellFormed() && r.WellFormed() && l.Size() < bound && r.Size() < bound
    ensures var m, s := Meaning(Bin(op, Nested(l), Nested(r)), env, true), Render(l) + [Binary(op)] + Render(r);
            if m.Abort? then Binary(SlashOp) in s else m.ok <==> Found(s, env)
    decreases bound, 0
  {
    hide Quotient;
    NestedSuccess(l, env, true);
    var x := Meaning(Nested(l), env, true);
    if !x.Abort? { NestedSuccess(r, env, x.ok); }
    FoundConcat(Render(l) + [Binary(op)], Render(r), env);
    FoundConcat(Render(l), [Binary(op)], env);
  }

  /** expr succeeds exactly if it knows every register that is named, and aborts only where there is a division. */
  lemma SuccessExact(a: Ast, env: Env)
    requires a.WellFormed()
    ensures var m, s := Answer(RenderRaw(a), env), RenderRaw(a);
            if m.Abort? then Binary(SlashOp) in s
            else m.ok <==> forall i :: 0 <= i < |s| && s[i].Reg? ==> s[i].name in env.regs
  {
    hide EvalTokens, Meaning, Nested, Render, RenderRaw;
    ExprIsNested(a, env);
    NestedSuccess(a, env, true);
    RetagRender(a);
    var s := RenderRaw(a);
    assert RetagAfter(false, s) == Render(a);
    assert forall i :: 0 <= i < |s| ==> (s[i].Reg? || Render(a)[i].Reg? ==> s[i] == Render(a)[i]);
    assert forall i :: 0 <= i < |s| ==> (Render(a)[i] == Binary(SlashOp) ==> s[i] == Binary(SlashOp));
  }
}
