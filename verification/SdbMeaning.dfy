/** What eval makes of every well-formed expression, and when that is the usual meaning
    (nemu/src/monitor/sdb/expr.c). */
module SdbMeaning {
  import opened Arithmetic
  import opened SdbSyntax
  import opened SdbEval

  // ----- depth and concatenation -----

  lemma {:induction false} DepthPrefix(s: seq<Token>, t: seq<Token>, i: nat)
    requires i <= |s|
    ensures Depth(s + t, i) == Depth(s, i)
    decreases i
  {
    if i > 0 { DepthPrefix(s, t, i - 1); }
  }

  lemma {:induction false} DepthSuffix(s: seq<Token>, t: seq<Token>, i: nat)
    requires i <= |t|
    ensures Depth(s + t, |s| + i) == Depth(s, |s|) + Depth(t, i)
    decreases i
  {
    if i == 0 {
      DepthPrefix(s, t, |s|);
    } else {
      DepthSuffix(s, t, i - 1);
    }
  }

  /** Every token outside parentheses binds at least as tightly as m. */
  ghost predicate TopAtLeast(s: seq<Token>, m: nat)
  {
    forall i: nat :: i < |s| && OnTop(s, i) ==> Precedence(s[i]) >= m
  }

  lemma BalancedConcat(s: seq<Token>, t: seq<Token>)
    requires Balanced(s) && Balanced(t)
    ensures Balanced(s + t)
  {
    DepthSuffix(s, t, |t|);
    forall i: nat | i <= |s + t| ensures Depth(s + t, i) >= 0 {
      if i <= |s| { DepthPrefix(s, t, i); } else { DepthSuffix(s, t, i - |s|); }
    }
  }

  lemma BalancedWrap(s: seq<Token>)
    requires Balanced(s)
    ensures Balanced([LParen] + s + [RParen])
    ensures forall i: nat :: 0 < i <= |s| ==> Depth([LParen] + s + [RParen], i) > 0
  {
    var w := [LParen] + s + [RParen];
    assert Depth([LParen], 1) == 1 by { assert Depth([LParen], 0) == 0; }
    forall i: nat | 0 < i <= |s| + 1 ensures Depth(w, i) == 1 + Depth(s, i - 1) {
      DepthPrefix([LParen] + s, [RParen], i);
      DepthSuffix([LParen], s, i - 1);
    }
    assert w[|w| - 1] == RParen;
    assert Depth(w, |w|) == Depth(w, |w| - 1) - 1;
    assert Depth(w, 0) == 0;
  }

  lemma BalancedToken(t: Token)
    requires !t.IsParen()
    ensures Balanced([t])
  {
    assert Depth([t], 0) == 0 && Depth([t], 1) == 0;
  }

  /** Outside parentheses in a concatenation is outside parentheses in a part. */
  lemma OnTopConcat(s: seq<Token>, t: seq<Token>, i: nat)
    requires Balanced(s) && i < |s + t|
    ensures OnTop(s + t, i) <==> if i < |s| then OnTop(s, i) else OnTop(t, i - |s|)
  {
    if i < |s| { DepthPrefix(s, t, i); } else { DepthSuffix(s, t, i - |s|); }
  }

  lemma {:induction false} RenderTop(a: Ast)
    requires a.WellFormed()
    ensures Balanced(Render(a)) && TopAtLeast(Render(a), a.Level()) && |Render(a)| >= 1
  {
    match a
    case Lit(t) =>
      BalancedToken(t);
    case Paren(b) =>
      RenderTop(b);
      BalancedWrap(Render(b));
    case Un(u, b) =>
      RenderTop(b);
      BalancedToken(Unary(u));
      BalancedConcat([Unary(u)], Render(b));
      forall i: nat | i < |Render(a)| && OnTop(Render(a), i) ensures Precedence(Render(a)[i]) >= 7 {
        OnTopConcat([Unary(u)], Render(b), i);
      }
    case Bin(op, l, r) =>
      RenderTop(l);
      RenderTop(r);
      JoinTop(Render(l), op, Render(r));
  }

  lemma JoinTop(s: seq<Token>, op: BinOp, t: seq<Token>)
    requires Balanced(s) && Balanced(t) && TopAtLeast(s, OpPrecedence(op)) && TopAtLeast(t, OpPrecedence(op))
    ensures Balanced(s + [Binary(op)] + t) && TopAtLeast(s + [Binary(op)] + t, OpPrecedence(op))
    ensures OnTop(s + [Binary(op)] + t, |s|)
    ensures forall i: nat :: i < |s| + 1 + |t| && OnTop(s + [Binary(op)] + t, i) ==>
              if i < |s| then OnTop(s, i) else i > |s| ==> OnTop(t, i - |s| - 1)
  {
    var b := [Binary(op)];
    BalancedToken(Binary(op));
    BalancedConcat(s, b);
    BalancedConcat(s + b, t);
    forall i: nat | i < |s + b + t|
      ensures OnTop(s + b + t, i) <==> if i < |s| then OnTop(s, i) else if i == |s| then true else OnTop(t, i - |s| - 1)
    {
      OnTopConcat(s + b, t, i);
      if i <= |s| { OnTopConcat(s, b, i); }
      assert OnTop(b, 0);
    }
  }

  // ----- the tree eval works on -----

  /** A chain of '*' and '/'. */
  predicate IsProduct(a: Ast) { a.Bin? && OpPrecedence(a.op) == 6 }

  function First(a: Ast): Ast
    requires IsProduct(a)
  {
    if IsProduct(a.left) then First(a.left) else a.left
  }

  function FirstOp(a: Ast): BinOp
    requires IsProduct(a)
  {
    if IsProduct(a.left) then FirstOp(a.left) else a.op
  }

  /** What follows the first operator, as an expression of its own. */
  function Rest(a: Ast): Ast
    requires IsProduct(a)
  {
    if IsProduct(a.left) then Bin(a.op, Rest(a.left), a.right) else a.right
  }

  lemma {:induction false} SplitFirst(a: Ast)
    requires a.WellFormed() && IsProduct(a)
    ensures Render(a) == Render(First(a)) + [Binary(FirstOp(a))] + Render(Rest(a)) && OpPrecedence(FirstOp(a)) == 6
    ensures First(a).WellFormed() && First(a).Level() >= 7 && Rest(a).WellFormed() && Rest(a).Level() >= 6
    ensures First(a).Size() + Rest(a).Size() < a.Size()
    decreases a
  {
    if IsProduct(a.left) {
      SplitFirst(a.left);
      var f, g, r := Render(First(a.left)), Render(Rest(a.left)), Render(a.right);
      var o, p := [Binary(FirstOp(a))], [Binary(a.op)];
      assert (f + o + g) + p + r == f + o + (g + p + r);
    }
  }

  /** The operand and the last of a row of unary operators. */
  function Operand(a: Ast): Ast
    requires a.Un?
  {
    if a.arg.Un? then Operand(a.arg) else a.arg
  }

  function LastUn(a: Ast): UnOp
    requires a.Un?
  {
    if a.arg.Un? then LastUn(a.arg) else a.un
  }

  function Unaries(a: Ast): (s: seq<Token>)
    requires a.Un?
    ensures |s| >= 1 && s[|s| - 1] == Unary(LastUn(a)) && forall i :: 0 <= i < |s| ==> s[i].Unary?
  {
    [Unary(a.un)] + if a.arg.Un? then Unaries(a.arg) else []
  }

  lemma {:induction false} SplitUnaries(a: Ast)
    requires a.WellFormed() && a.Un?
    ensures Render(a) == Unaries(a) + Render(Operand(a)) && Operand(a).WellFormed() && Operand(a).Level() == 8
    ensures Operand(a).Size() < a.Size()
    decreases a
  {
    if a.arg.Un? {
      SplitUnaries(a.arg);
      var o, u, r := [Unary(a.un)], Unaries(a.arg), Render(Operand(a));
      assert o + (u + r) == (o + u) + r;
    }
  }

  /** Products nest to the right, and of adjacent unary operators only the last counts. */
  ghost function Nested(a: Ast): Ast
    requires a.WellFormed()
    decreases a.Size()
  {
    match a
    case Lit(_) => a
    case Paren(b) => Paren(Nested(b))
    case Un(u, b) => SplitUnaries(a); Un(LastUn(a), Nested(Operand(a)))
    case Bin(op, l, r) =>
      if IsProduct(a) then SplitFirst(a); Bin(FirstOp(a), Nested(First(a)), Nested(Rest(a)))
      else Bin(op, Nested(l), Nested(r))
  }

  lemma InnerParts(s: seq<Token>, op: BinOp, t: seq<Token>)
    requires |s| >= 1 && |t| >= 1
    ensures var w := s + [Binary(op)] + t; w[1..|w| - 1] == s[1..] + ([Binary(op)] + t[..|t| - 1])
  {
    var w := s + [Binary(op)] + t;
    var inner, parts := w[1..|w| - 1], s[1..] + ([Binary(op)] + t[..|t| - 1]);
    assert |inner| == |parts|;
    forall i | 0 <= i < |inner| ensures inner[i] == parts[i] { assert inner[i] == w[i + 1]; }
  }

  lemma NotWrapped(s: seq<Token>, op: BinOp, t: seq<Token>)
    requires Balanced(s) && |s| >= 1 && |t| >= 1
    ensures !Wrapped(s + [Binary(op)] + t)
  {
    var w := s + [Binary(op)] + t;
    if Wrapped(w) {
      var inner, tail := w[1..|w| - 1], s[1..];
      assert s == [s[0]] + tail && s[0] == LParen;
      DepthSuffix([s[0]], tail, |tail|);
      assert Depth([s[0]], 1) == 1 by { assert Depth([s[0]], 0) == 0; }
      assert Depth(tail, |tail|) == -1;
      var after := [Binary(op)] + t[..|t| - 1];
      InnerParts(s, op, t);
      DepthPrefix(tail, after, |tail|);
    }
  }

  /** eval at a binary operator. */
  lemma EvalBinary(s: seq<Token>, op: BinOp, t: seq<Token>, env: Env)
    requires Balanced(s) && |s| >= 1 && |t| >= 1 && Splits(s + [Binary(op)] + t, |s|)
    ensures var x := EvalTokens(s, env, true);
            EvalTokens(s + [Binary(op)] + t, env, true)
              == if x.Abort? then Abort else MeaningBin(op, x.value, EvalTokens(t, env, x.ok))
  {
    hide MeaningBin, Wrapped;
    var w := s + [Binary(op)] + t;
    NotWrapped(s, op, t);
    ScanFinds(w, |s|, |w|);
    assert w[..|s|] == s && w[|s| + 1..] == t && w[|s|] == Binary(op);
  }

  /** eval at a row of unary operators. */
  lemma EvalUnary(us: seq<Token>, u: UnOp, t: seq<Token>, env: Env)
    requires |us| >= 1 && us[|us| - 1] == Unary(u) && (forall i :: 0 <= i < |us| ==> us[i].Unary?)
    requires |t| >= 1 && TopAtLeast(t, 8)
    ensures EvalTokens(us + t, env, true) == MeaningUn(u, EvalTokens(t, env, true), env)
  {
    hide MeaningUn, Splits, OnTop, Scan;
    var w, k := us + t, |us| - 1;
    UnariesSplit(us, t);
    ScanFinds(w, k, |w|);
    assert w[k + 1..] == t && w[0].Unary?;
  }

  lemma UnariesSplit(us: seq<Token>, t: seq<Token>)
    requires |us| >= 1 && (forall i :: 0 <= i < |us| ==> us[i].Unary?) && TopAtLeast(t, 8)
    ensures Splits(us + t, |us| - 1)
  {
    var w, k := us + t, |us| - 1;
    UnariesBalanced(us, |us|);
    OnTopConcat(us, t, k);
    forall j: nat | j < |w| && j != k && OnTop(w, j) ensures Precedence(w[j]) > 7 || (Precedence(w[j]) == 7 && j < k) {
      OnTopConcat(us, t, j);
    }
  }

  lemma {:induction false} UnariesBalanced(us: seq<Token>, n: nat)
    requires n <= |us| && forall i :: 0 <= i < |us| ==> us[i].Unary?
    ensures Depth(us, n) == 0 && forall i: nat :: i <= n ==> Depth(us, i) == 0
    decreases n
  {
    if n > 0 { UnariesBalanced(us, n - 1); }
  }

  /** The main operator of a rendered expression. */
  lemma SplitsAt(l: Ast, op: BinOp, r: Ast)
    requires l.WellFormed() && r.WellFormed()
    requires if OpPrecedence(op) == 6 then l.Level() > 6 && r.Level() >= 6
             else l.Level() >= OpPrecedence(op) && r.Level() > OpPrecedence(op)
    ensures Splits(Render(l) + [Binary(op)] + Render(r), |Render(l)|)
    ensures Balanced(Render(l)) && |Render(l)| >= 1 && |Render(r)| >= 1
  {
    hide OnTop, Balanced, Render;
    RenderTop(l);
    RenderTop(r);
    var s, t := Render(l), Render(r);
    var w := s + [Binary(op)] + t;
    JoinTop(s, op, t);
    forall j: nat | j < |w| && j != |s| && OnTop(w, j)
      ensures Precedence(w[j]) > OpPrecedence(op) ||
              (Precedence(w[j]) == OpPrecedence(op) && if OpPrecedence(op) == 6 then |s| < j else j < |s|)
    {
      if j < |s| {
        assert OnTop(s, j) && w[j] == s[j];
      } else {
        assert OnTop(t, j - |s| - 1) && w[j] == t[j - |s| - 1];
      }
    }
  }

  /** On the tokens of every well-formed expression, eval computes the meaning of the nested tree. */
  lemma {:induction false} EvalIsNested(a: Ast, env: Env, ok: bool)
    requires a.WellFormed()
    ensures EvalTokens(Render(a), env, ok) == Meaning(Nested(a), env, ok)
    decreases a.Size()
  {
    if !ok { return; }
    match a
    case Lit(t) =>
    case Paren(b) =>
      EvalIsNested(b, env, ok);
      RenderTop(b);
      var s := Render(a);
      assert s[1..|s| - 1] == Render(b);
      assert Wrapped(s);
    case Un(u, b) =>
      SplitUnaries(a);
      RenderTop(Operand(a));
      EvalIsNested(Operand(a), env, ok);
      EvalUnary(Unaries(a), LastUn(a), Render(Operand(a)), env);
    case Bin(op, l, r) =>
      if IsProduct(a) {
        SplitFirst(a);
        EvalSplit(a, First(a), FirstOp(a), Rest(a), env);
      } else {
        EvalSplit(a, l, op, r, env);
      }
  }

  lemma EvalSplit(a: Ast, l: Ast, op: BinOp, r: Ast, env: Env)
    requires a.WellFormed() && l.WellFormed() && r.WellFormed() && l.Size() + r.Size() < a.Size()
    requires if OpPrecedence(op) == 6 then l.Level() > 6 && r.Level() >= 6
             else l.Level() >= OpPrecedence(op) && r.Level() > OpPrecedence(op)
    ensures EvalTokens(Render(l) + [Binary(op)] + Render(r), env, true)
         == Meaning(Bin(op, Nested(l), Nested(r)), env, true)
    decreases a.Size(), 0
  {
    SplitsAt(l, op, r);
    EvalBinary(Render(l), op, Render(r), env);
    EvalIsNested(l, env, true);
    var x := EvalTokens(Render(l), env, true);
    if !x.Abort? { EvalIsNested(r, env, x.ok); }
  }

  // ----- when that is the usual meaning -----

  /** No unary operator directly after another, and no '/' in a longer chain of '*' and '/'. */
  predicate Plain(a: Ast)
  {
    match a
    case Lit(_) => true
    case Paren(b) => Plain(b)
    case Un(_, b) => Plain(b) && !b.Un?
    case Bin(op, l, r) => Plain(l) && Plain(r) && (IsProduct(a) && IsProduct(l) ==> op == StarOp && l.op == StarOp)
  }

  /** Multiplication of words is associative. */
  lemma MulAssociative(x: Word, y: Word, z: Word)
    ensures ((x * y) % WORD * z) % WORD == (x * ((y * z) % WORD)) % WORD
  {
    MulMod(WORD, x, y * z);
    MulMod(WORD, z, x * y);
    MulCommutes((x * y) % WORD, z);
    MulCommutes(x * y, z);
    MulAssoc(x, y, z);
  }

  lemma StarReassociates(f: Ast, g: Ast, r: Ast, env: Env, ok: bool)
    ensures Meaning(Bin(StarOp, Bin(StarOp, f, g), r), env, ok) == Meaning(Bin(StarOp, f, Bin(StarOp, g, r)), env, ok)
  {
    var x := Meaning(f, env, ok);
    if !ok || x.Abort? { return; }
    var y := Meaning(g, env, x.ok);
    if y.Abort? { return; }
    var z := Meaning(r, env, y.ok);
    if z.Abort? { return; }
    MulAssociative(x.value, y.value, z.value);
  }

  /** A plain chain is a product throughout; moving its first factor out changes nothing. */
  lemma {:induction false} PlainChain(a: Ast, env: Env, ok: bool)
    requires a.WellFormed() && Plain(a) && IsProduct(a) && a.op == StarOp
    ensures Plain(First(a)) && Plain(Rest(a)) && FirstOp(a) == StarOp && (IsProduct(Rest(a)) ==> Rest(a).op == StarOp)
    ensures Meaning(Bin(StarOp, First(a), Rest(a)), env, ok) == Meaning(a, env, ok)
    decreases a
  {
    if IsProduct(a.left) {
      PlainChain(a.left, env, ok);
      StarReassociates(First(a), Rest(a.left), a.right, env, ok);
    }
  }

  lemma {:induction false} NestedMeaning(a: Ast, env: Env, ok: bool)
    requires a.WellFormed() && Plain(a)
    ensures Meaning(Nested(a), env, ok) == Meaning(a, env, ok)
    decreases a.Size()
  {
    match a
    case Lit(_) =>
    case Paren(b) => NestedMeaning(b, env, ok);
    case Un(_, b) => NestedMeaning(b, env, ok);
    case Bin(op, l, r) =>
      if IsProduct(a) && IsProduct(l) {
        SplitFirst(a);
        PlainChain(a, env, ok);
        NestedBin(StarOp, First(a), Rest(a), env, ok, a.Size());
      } else {
        NestedBin(op, l, r, env, ok, a.Size());
      }
  }

  lemma NestedBin(op: BinOp, l: Ast, r: Ast, env: Env, ok: bool, bound: nat)
    requires l.WellFormed() && Plain(l) && r.WellFormed() && Plain(r) && l.Size() < bound && r.Size() < bound
    ensures Meaning(Bin(op, Nested(l), Nested(r)), env, ok) == Meaning(Bin(op, l, r), env, ok)
    decreases bound, 0
  {
    NestedMeaning(l, env, ok);
    var x := Meaning(l, env, ok);
    if !x.Abort? { NestedMeaning(r, env, x.ok); }
  }

  // ----- from raw tokens -----

  /** Retagging what follows a token that ends an operand, or does not. */
  function RetagAfter(ends: bool, s: seq<Token>): (r: seq<Token>)
    ensures |r| == |s| && forall i :: 0 <= i < |s| ==> r[i] == if i == 0 && ends then s[0] else Retag(s, i)
  {
    seq(|s|, i requires 0 <= i < |s| => if i == 0 && ends then s[0] else Retag(s, i))
  }

  lemma RetagConcat(ends: bool, s: seq<Token>, t: seq<Token>)
    requires |s| >= 1
    ensures RetagAfter(ends, s + t) == RetagAfter(ends, s) + RetagAfter(s[|s| - 1].EndsOperand(), t)
  {
    var a, b := RetagAfter(ends, s + t), RetagAfter(ends, s) + RetagAfter(s[|s| - 1].EndsOperand(), t);
    forall i | 0 <= i < |a| ensures a[i] == b[i] {
      if i > |s| { assert (s + t)[i - 1] == t[i - |s| - 1]; }
    }
  }

  /** Retagging finds exactly the unary operators. */
  lemma {:induction false} RetagRender(a: Ast)
    requires a.WellFormed()
    ensures |RenderRaw(a)| >= 1 && RenderRaw(a)[|RenderRaw(a)| - 1].EndsOperand()
    ensures RetagAfter(false, RenderRaw(a)) == Render(a)
  {
    hide RetagAfter;
    match a
    case Lit(t) =>
      RetagOne(false, t);
    case Paren(b) =>
      RetagRender(b);
      RetagParens(RenderRaw(b));
    case Un(u, b) =>
      RetagRender(b);
      var t := Binary(if u == Neg then MinusOp else StarOp);
      RetagConcat(false, [t], RenderRaw(b));
      RetagOne(false, t);
    case Bin(op, l, r) =>
      RetagRender(l);
      RetagRender(r);
      RetagOperands(RenderRaw(l), op, RenderRaw(r));
  }

  lemma RetagParens(s: seq<Token>)
    requires |s| >= 1 && s[|s| - 1].EndsOperand()
    ensures RetagAfter(false, [LParen] + s + [RParen]) == [LParen] + RetagAfter(false, s) + [RParen]
  {
    hide RetagAfter;
    RetagConcat(false, [LParen] + s, [RParen]);
    RetagConcat(false, [LParen], s);
    RetagOne(false, LParen);
    RetagOne(true, RParen);
  }

  lemma RetagOperands(s: seq<Token>, op: BinOp, t: seq<Token>)
    requires |s| >= 1 && s[|s| - 1].EndsOperand()
    ensures RetagAfter(false, s + [Binary(op)] + t) == RetagAfter(false, s) + [Binary(op)] + RetagAfter(false, t)
  {
    hide RetagAfter;
    RetagConcat(false, s + [Binary(op)], t);
    RetagConcat(false, s, [Binary(op)]);
    RetagOne(true, Binary(op));
  }

  lemma RetagOne(ends: bool, t: Token)
    ensures RetagAfter(ends, [t])
         == [if !ends && t == Binary(StarOp) then Unary(Deref)
             else if !ends && t == Binary(MinusOp) then Unary(Neg)
             else t]
  {
  }

  /** expr, from the tokens of a well-formed expression: the meaning of the nested tree. */
  lemma ExprIsNested(a: Ast, env: Env)
    requires a.WellFormed()
    ensures RenderRaw(a) != [] && EvalTokens(Retagged(RenderRaw(a)), env, true) == Meaning(Nested(a), env, true)
  {
    RetagRender(a);
    assert Retagged(RenderRaw(a)) == RetagAfter(false, RenderRaw(a));
    EvalIsNested(a, env, true);
  }

  /** And of a plain one: its meaning. */
  lemma ExprIsMeaning(a: Ast, env: Env)
    requires a.WellFormed() && Plain(a)
    ensures EvalTokens(Retagged(RenderRaw(a)), env, true) == Meaning(a, env, true)
  {
    ExprIsNested(a, env);
    NestedMeaning(a, env, true);
  }

  /** 8 / 4 / 2 is read as 8 / (4 / 2). */
  lemma DivisionChain(env: Env)
    ensures var a := Bin(SlashOp, Bin(SlashOp, Lit(Num(8)), Lit(Num(4))), Lit(Num(2)));
            && a.WellFormed() && Meaning(a, env, true) == Ran(1, true)
            && EvalTokens(Retagged(RenderRaw(a)), env, true) == Ran(4, true)
  {
    hide EvalTokens, Retagged, RenderRaw;
    var a := Bin(SlashOp, Bin(SlashOp, Lit(Num(8)), Lit(Num(4))), Lit(Num(2)));
    ExprIsNested(a, env);
    assert Nested(a) == Bin(SlashOp, Lit(Num(8)), Bin(SlashOp, Lit(Num(4)), Lit(Num(2))));
    Divide(8, 4, env);
    Divide(4, 2, env);
  }

  lemma Divide(x: Word, y: Word, env: Env)
    requires 0 < y < 10 && x < 10
    ensures Meaning(Bin(SlashOp, Lit(Num(x)), Lit(Num(y))), env, true) == Ran(x / y, true)
  {
    assert (x / y) % WORD == x / y;
  }

  /** - - 1 is read as - 1. */
  lemma AdjacentUnary(env: Env)
    ensures var a := Un(Neg, Un(Neg, Lit(Num(1))));
            && a.WellFormed() && Meaning(a, env, true) == Ran(1, true)
            && EvalTokens(Retagged(RenderRaw(a)), env, true) == Ran(0xffff_ffff, true)
  {
    var a := Un(Neg, Un(Neg, Lit(Num(1))));
    ExprIsNested(a, env);
    assert Nested(a) == Un(Neg, Lit(Num(1)));
  }

  /** Plain is not necessary: - - x || y has its usual value for every x and y, because only their truth matters. */
  lemma PlainNotNecessary(x: Token, y: Token, env: Env)
    requires (x.Num? || x.Reg?) && (y.Num? || y.Reg?)
    ensures var a := Bin(OrOp, Un(Neg, Un(Neg, Lit(x))), Lit(y));
            && a.WellFormed() && !Plain(a)
            && EvalTokens(Retagged(RenderRaw(a)), env, true) == Meaning(a, env, true)
  {
    hide EvalTokens, Retagged, RenderRaw;
    var a := Bin(OrOp, Un(Neg, Un(Neg, Lit(x))), Lit(y));
    assert Lit(x).WellFormed() && Un(Neg, Lit(x)).WellFormed() && a.left.WellFormed();
    ExprIsNested(a, env);
    assert Operand(a.left) == Lit(x) && LastUn(a.left) == Neg;
    assert Nested(a.left) == Un(Neg, Lit(x));
    assert Nested(a) == Bin(OrOp, Un(Neg, Lit(x)), Lit(y));
    NegatedTruth(Leaf(x, env).value, env);
  }

  lemma NegatedTruth(v: Word, env: Env)
    ensures ApplyUn(Neg, v, env) != 0 <==> ApplyUn(Neg, ApplyUn(Neg, v, env), env) != 0
  {
  }
}
