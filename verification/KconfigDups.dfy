/** Joining of redundant operands
    (expr_join_or, expr_join_and, expr_eliminate_dups1 and expr_eliminate_dups in nemu/tools/kconfig/expr.c). */
module KconfigDups {
  import opened KconfigExpr
  import opened KconfigEq
  import opened KconfigEqExact

  // ----- joining two leaves -----

  /** The symbol the join rules look at in their first operand, if its shape is one they handle. */
  function JoinSym1(e: Expr): Option<Sym>
  {
    match e
    case Comp(op, l, _) => if op.Equal? || op.Unequal? then Some(l) else None
    case Symbol(s) => Some(s)
    case Not(Symbol(s)) => Some(s)
    case Not(Comp(op, l, _)) => if op.Equal? || op.Unequal? then Some(l) else None
    case _ => None
  }

  /** The same for the second operand, where a negation must stand above a symbol. */
  function JoinSym2(e: Expr): Option<Sym>
  {
    match e
    case Comp(op, l, _) => if op.Equal? || op.Unequal? then Some(l) else None
    case Symbol(s) => Some(s)
    case Not(Symbol(s)) => Some(s)
    case _ => None
  }

  /** Both operands are about one bool or tristate symbol. */
  predicate JoinCandidates(e1: Expr, e2: Expr)
  {
    var s := JoinSym1(e1);
    s.Some? && s == JoinSym2(e2) && (s.value.Bool? || s.value.Tristate?)
  }

  predicate IsComp(e: Expr, op: CmpOp, r: Sym) { e.Comp? && e.op == op && e.rhs == r }

  /** `e1` and `e2` compare by `op` with `r` and `s`, in either order. */
  predicate CompPair(e1: Expr, e2: Expr, op: CmpOp, r: Sym, s: Sym)
  {
    (IsComp(e1, op, r) && IsComp(e2, op, s)) || (IsComp(e1, op, s) && IsComp(e2, op, r))
  }

  /** One operand is a symbol, the other compares by `op` with `r`. */
  predicate SymAndComp(e1: Expr, e2: Expr, op: CmpOp, r: Sym)
  {
    (e1.Symbol? && IsComp(e2, op, r)) || (e2.Symbol? && IsComp(e1, op, r))
  }

  predicate IsNotSym(e: Expr) { e.Not? && e.arg.Symbol? }

  /** expr_join_or. */
  function JoinOr(e1: Expr, e2: Expr): Option<Expr>
  {
    if Eq(e1, e2) then Some(e1)
    else if !JoinCandidates(e1, e2) then None
    else
      var s := JoinSym1(e1).value;
      if s.Tristate? && CompPair(e1, e2, Equal, Yes, Mod) then Some(Comp(Unequal, s, No))
      else if s.Tristate? && CompPair(e1, e2, Equal, Yes, No) then Some(Comp(Unequal, s, Mod))
      else if s.Tristate? && CompPair(e1, e2, Equal, Mod, No) then Some(Comp(Unequal, s, Yes))
      else if s.Bool? && ((IsNotSym(e1) && e2.Symbol?) || (IsNotSym(e2) && e1.Symbol?)) then Some(Symbol(Yes))
      else None
  }

  /** expr_join_and. */
  function JoinAnd(e1: Expr, e2: Expr): Option<Expr>
  {
    if Eq(e1, e2) then Some(e1)
    else if !JoinCandidates(e1, e2) then None
    else
      var s := JoinSym1(e1).value;
      if SymAndComp(e1, e2, Equal, Yes) then Some(Comp(Equal, s, Yes))
      else if SymAndComp(e1, e2, Unequal, No) then Some(Symbol(s))
      else if SymAndComp(e1, e2, Unequal, Mod) then Some(Comp(Equal, s, Yes))
      else if s.Bool? then None
      else if e1.Comp? && e1.op.Equal? && e2.Comp? && e2.op.Unequal? && e1.rhs.IsConst() && e2.rhs.IsConst() then
        Some(if e1.rhs != e2.rhs then Comp(Equal, s, e1.rhs) else Symbol(No))
      else if e1.Comp? && e1.op.Unequal? && e2.Comp? && e2.op.Equal? && e1.rhs.IsConst() && e2.rhs.IsConst() then
        Some(if e1.rhs != e2.rhs then Comp(Equal, s, e2.rhs) else Symbol(No))
      else if CompPair(e1, e2, Unequal, Yes, No) then Some(Comp(Equal, s, Mod))
      else if CompPair(e1, e2, Unequal, Yes, Mod) then Some(Comp(Equal, s, No))
      else if CompPair(e1, e2, Unequal, Mod, No) then Some(Comp(Equal, s, Yes))
      else None
  }

  function Join(k: Kind, e1: Expr, e2: Expr): Option<Expr>
  {
    if k.KOr? then JoinOr(e1, e2) else JoinAnd(e1, e2)
  }

  /** Every rule of expr_join_or yields the maximum of its two operands. */
  lemma JoinOrSound(e1: Expr, e2: Expr, env: Env)
    requires JoinOr(e1, e2).Some?
    ensures Eval(JoinOr(e1, e2).value, env) == TriOr(Eval(e1, env), Eval(e2, env))
  {
    EqSound(e1, e2, env);
  }

  /** The value of a tristate that equals a constant. */
  function Denoted(s: Sym): Option<int>
  {
    match s
    case Yes => Some(YES)
    case Mod => Some(MOD)
    case No => Some(NO)
    case Text(_, number) => if NamesValue(s) then number else None
    case _ => None
  }

  lemma DenotedSound(t: Sym, c: Sym, env: Env)
    requires t.Tristate? && c.IsConst()
    ensures Eval(Comp(Equal, t, c), env) == YES <==> Denoted(c) == Some(SymVal(t, env))
  {
  }

  /** The AND rule for a='b' && a!='c', where different constants stand for the same value: y, m or n and text that is
      the number 2, 1 or 0, or two such texts. */
  predicate SameValueClash(e1: Expr, e2: Expr)
  {
    && e1.Comp? && e1.op.Equal? && e2.Comp? && e2.op.Unequal? && e1.lhs == e2.lhs && e1.lhs.Tristate?
    && e1.rhs.IsConst() && e2.rhs.IsConst() && e1.rhs != e2.rhs
    && Denoted(e1.rhs).Some? && Denoted(e1.rhs) == Denoted(e2.rhs)
  }

  predicate Clash(e1: Expr, e2: Expr) { SameValueClash(e1, e2) || SameValueClash(e2, e1) }

  /** Every other rule of expr_join_and yields the minimum of its two operands. */
  lemma JoinAndSound(e1: Expr, e2: Expr, env: Env)
    requires JoinAnd(e1, e2).Some? && !Clash(e1, e2)
    ensures Eval(JoinAnd(e1, e2).value, env) == TriAnd(Eval(e1, env), Eval(e2, env))
  {
    if Eq(e1, e2) {
      EqSound(e1, e2, env);
    } else if e1.Symbol? || e2.Symbol? {
      JoinAndSymbol(e1, e2, env);
    } else {
      JoinAndTests(e1, e2, env);
    }
  }

  /** The rules for a symbol and a test of it. */
  lemma JoinAndSymbol(e1: Expr, e2: Expr, env: Env)
    requires !Eq(e1, e2) && JoinAnd(e1, e2).Some? && (e1.Symbol? || e2.Symbol?)
    ensures Eval(JoinAnd(e1, e2).value, env) == TriAnd(Eval(e1, env), Eval(e2, env))
  {
    hide Eq;
  }

  /** The rules for two tests of a symbol. */
  lemma JoinAndTests(e1: Expr, e2: Expr, env: Env)
    requires !Eq(e1, e2) && JoinAnd(e1, e2).Some? && !e1.Symbol? && !e2.Symbol? && !Clash(e1, e2)
    ensures Eval(JoinAnd(e1, e2).value, env) == TriAnd(Eval(e1, env), Eval(e2, env))
  {
    hide Eq;
  }

  /** There it is wrong where the symbol has that value: a='0' && a!='n' is joined to a='0', which a = n meets. */
  lemma JoinAndClash(e1: Expr, e2: Expr, env: Env)
    requires Clash(e1, e2) && Denoted(e1.rhs) == Some(SymVal(e1.lhs, env))
    ensures JoinAnd(e1, e2).Some? && Eval(JoinAnd(e1, e2).value, env) == YES
    ensures TriAnd(Eval(e1, env), Eval(e2, env)) == NO
  {
    DenotedSound(e1.lhs, e1.rhs, env);
    DenotedSound(e2.lhs, e2.rhs, env);
  }

  /** So a join of two conjuncts keeps the value under every assignment exactly if it is not that rule. */
  lemma JoinAndExact(e1: Expr, e2: Expr)
    requires JoinAnd(e1, e2).Some?
    ensures (forall env: Env :: Eval(JoinAnd(e1, e2).value, env) == TriAnd(Eval(e1, env), Eval(e2, env)))
       <==> !Clash(e1, e2)
  {
    if Clash(e1, e2) {
      var v: Tri := Denoted(e1.rhs).value;
      JoinAndClash(e1, e2, Env(_ => false, _ => v, (_, _) => 0));
    } else {
      forall env: Env ensures Eval(JoinAnd(e1, e2).value, env) == TriAnd(Eval(e1, env), Eval(e2, env)) {
        JoinAndSound(e1, e2, env);
      }
    }
  }

  lemma ScopedNoClash(e1: Expr, e2: Expr)
    requires Scoped(e1) && Scoped(e2)
    ensures !Clash(e1, e2)
  {
  }

  /** A join keeps both shapes and does not outgrow its first operand. */
  lemma JoinForm(k: Kind, e1: Expr, e2: Expr)
    requires Join(k, e1, e2).Some?
    ensures var t := Join(k, e1, e2).value;
            && Ops(t) <= Ops(e1)
            && Size(t) <= Size(e1)
            && (!k.Is(e1) ==> !k.Is(t))
            && (Scoped(e1) && Scoped(e2) ==> Scoped(t))
            && (Normal(e1) && Normal(e2) ==> Normal(t))
  {
  }

  // ----- one pass over all pairs of leaves -----

  /** The operands of a tree at its top level of `k`; parentheses within the level do not matter. */
  function Leaves(k: Kind, e: Expr): (ls: seq<Expr>)
    ensures |ls| >= 1
    ensures forall i :: 0 <= i < |ls| ==> !k.Is(ls[i])
  {
    if k.Is(e) then Leaves(k, e.left) + Leaves(k, e.right) else [e]
  }

  /** The tree with the same nodes of `k` over other leaves. */
  function Rebuild(k: Kind, e: Expr, ls: seq<Expr>): Expr
    requires |ls| == |Leaves(k, e)|
  {
    if k.Is(e) then
      var n := |Leaves(k, e.left)|;
      k.Node(Rebuild(k, e.left, ls[..n]), Rebuild(k, e.right, ls[n..]))
    else ls[0]
  }

  /** Leaves are smaller than the tree by which a walk's recursion is bounded. */
  predicate Below(ls: seq<Expr>, n: nat)
  {
    forall i :: 0 <= i < |ls| ==> Size(ls[i]) < n
  }

  lemma {:induction false} LeavesBelow(k: Kind, e: Expr)
    ensures Below(Leaves(k, e), Size(e) + 1)
    ensures k.Is(e) ==> Below(Leaves(k, e), Size(e))
  {
    if k.Is(e) {
      LeavesBelow(k, e.left);
      LeavesBelow(k, e.right);
    }
  }

  /** Nodes of all leaves together. */
  function TotalSize(ls: seq<Expr>): nat
  {
    if ls == [] then 0 else Size(ls[0]) + TotalSize(ls[1..])
  }

  lemma {:induction false} TotalSizeUpdate(ls: seq<Expr>, i: nat, x: Expr)
    requires i < |ls|
    ensures TotalSize(ls[i := x]) == TotalSize(ls) - Size(ls[i]) + Size(x)
  {
    if i == 0 {
      assert ls[i := x][1..] == ls[1..];
    } else {
      TotalSizeUpdate(ls[1..], i - 1, x);
      assert ls[i := x][1..] == ls[1..][i - 1 := x];
    }
  }

  lemma {:induction false} TotalSizeConcat(a: seq<Expr>, b: seq<Expr>)
    ensures TotalSize(a + b) == TotalSize(a) + TotalSize(b)
  {
    if a == [] {
      assert a + b == b;
    } else {
      TotalSizeConcat(a[1..], b);
      assert (a + b)[1..] == a[1..] + b;
    }
  }

  lemma {:induction false} RebuildSize(k: Kind, e: Expr, ls: seq<Expr>)
    requires |ls| == |Leaves(k, e)|
    ensures Size(Rebuild(k, e, ls)) + TotalSize(Leaves(k, e)) == Size(e) + TotalSize(ls)
  {
    hide TotalSize;
    if k.Is(e) {
      var n := |Leaves(k, e.left)|;
      RebuildSize(k, e.left, ls[..n]);
      RebuildSize(k, e.right, ls[n..]);
      TotalSizeConcat(Leaves(k, e.left), Leaves(k, e.right));
      TotalSizeConcat(ls[..n], ls[n..]);
      assert ls[..n] + ls[n..] == ls;
    } else {
      assert ls == [ls[0]];
      TotalSizeOne(e);
      TotalSizeOne(ls[0]);
    }
  }

  lemma TotalSizeOne(e: Expr)
    ensures TotalSize([e]) == Size(e)
  {
  }

  /** The tree after a walk, with the number of joins it counted in trans_count. */
  datatype Walked<T> = Walked(result: T, count: nat)

  /** expr_eliminate_dups1(type, &e, &e): all ordered pairs of distinct leaves, first operand outermost. */
  function Pass(k: Kind, e: Expr): (w: Walked<Expr>)
    requires k.Is(e)
    ensures k.Is(w.result) && Size(w.result) <= Size(e)
    decreases Size(e), 2, 0, 0
  {
    var ls := Leaves(k, e);
    LeavesBelow(k, e);
    var w := Pairs(k, ls, 0, 0, Size(e));
    RebuildSize(k, e, w.result);
    Walked(Rebuild(k, e, w.result), w.count)
  }

  /** The pairs from (i, j) on. */
  function Pairs(k: Kind, ls: seq<Expr>, i: nat, j: nat, n: nat): (w: Walked<seq<Expr>>)
    requires Below(ls, n) && i <= |ls| && j <= |ls|
    ensures |w.result| == |ls| && TotalSize(w.result) <= TotalSize(ls)
    decreases n, 1, |ls| - i, |ls| - j
  {
    if i == |ls| then Walked(ls, 0)
    else if j == |ls| then Pairs(k, ls, i + 1, 0, n)
    else
      var w := Pair(k, ls, i, j, n);
      var w' := Pairs(k, w.result, i, j + 1, n);
      Walked(w'.result, w.count + w'.count)
  }

  /** One meeting of two leaves: a first operand under the other connective is itself walked, then the
      two are joined if a rule applies. */
  function Pair(k: Kind, ls: seq<Expr>, i: nat, j: nat, n: nat): (w: Walked<seq<Expr>>)
    requires Below(ls, n) && i < |ls| && j < |ls|
    ensures |w.result| == |ls| && TotalSize(w.result) <= TotalSize(ls) && Below(w.result, n)
    decreases n, 0, 0, 0
  {
    if i == j then Walked(ls, 0)
    else
      var w1 := FirstOperand(ls[i]);
      var t := Join(k, w1.result, ls[j]);
      if t.Some? then
        JoinForm(k, w1.result, ls[j]);
        TotalSizeUpdate(ls, i, k.Unit());
        TotalSizeUpdate(ls[i := k.Unit()], j, t.value);
        Walked(ls[i := k.Unit()][j := t.value], w1.count + 1)
      else
        TotalSizeUpdate(ls, i, w1.result);
        Walked(ls[i := w1.result], w1.count)
  }

  function FirstOperand(e: Expr): (w: Walked<Expr>)
    ensures Size(w.result) <= Size(e)
    decreases Size(e), 3, 0, 0
  {
    if e.And? || e.Or? then Pass(KindOf(e), e) else Walked(e, 0)
  }

  // ----- a pass keeps the value -----

  ghost function Fold(k: Kind, ls: seq<Expr>, env: Env): Tri
  {
    if ls == [] then Eval(k.Unit(), env) else k.Op(Eval(ls[0], env), Fold(k, ls[1..], env))
  }

  lemma {:induction false} FoldConcat(k: Kind, a: seq<Expr>, b: seq<Expr>, env: Env)
    ensures Fold(k, a + b, env) == k.Op(Fold(k, a, env), Fold(k, b, env))
  {
    if a == [] {
      assert a + b == b;
    } else {
      FoldConcat(k, a[1..], b, env);
      assert (a + b)[1..] == a[1..] + b;
    }
  }

  lemma {:induction false} RebuildValue(k: Kind, e: Expr, ls: seq<Expr>, env: Env)
    requires |ls| == |Leaves(k, e)|
    ensures Eval(Rebuild(k, e, ls), env) == Fold(k, ls, env)
  {
    hide Fold;
    if k.Is(e) {
      var n := |Leaves(k, e.left)|;
      RebuildValue(k, e.left, ls[..n], env);
      RebuildValue(k, e.right, ls[n..], env);
      FoldConcat(k, ls[..n], ls[n..], env);
      assert ls[..n] + ls[n..] == ls;
    } else {
      assert ls == [ls[0]];
      FoldOne(k, ls[0], env);
    }
  }

  lemma FoldOne(k: Kind, e: Expr, env: Env)
    ensures Fold(k, [e], env) == Eval(e, env)
  {
  }

  lemma {:induction false} RebuildLeaves(k: Kind, e: Expr)
    ensures Rebuild(k, e, Leaves(k, e)) == e
  {
    if k.Is(e) {
      var n := |Leaves(k, e.left)|;
      RebuildLeaves(k, e.left);
      RebuildLeaves(k, e.right);
      assert Leaves(k, e)[..n] == Leaves(k, e.left);
      assert Leaves(k, e)[n..] == Leaves(k, e.right);
    }
  }

  lemma OpAssociates(k: Kind, a: Tri, b: Tri, c: Tri)
    ensures k.Op(k.Op(a, b), c) == k.Op(a, k.Op(b, c))
  {
  }

  /** Exchanging one operand for another: each side has both. */
  lemma {:induction false} FoldUpdate(k: Kind, ls: seq<Expr>, i: nat, x: Expr, env: Env)
    requires i < |ls|
    ensures k.Op(Fold(k, ls[i := x], env), Eval(ls[i], env)) == k.Op(Fold(k, ls, env), Eval(x, env))
    ensures k.Op(Fold(k, ls, env), Eval(ls[i], env)) == Fold(k, ls, env)
  {
    if i == 0 {
      assert ls[i := x][1..] == ls[1..];
    } else {
      FoldUpdate(k, ls[1..], i - 1, x, env);
      assert ls[i := x][1..] == ls[1..][i - 1 := x];
      var h := Eval(ls[0], env);
      OpAssociates(k, h, Fold(k, ls[1..][i - 1 := x], env), Eval(ls[i], env));
      OpAssociates(k, h, Fold(k, ls[1..], env), Eval(x, env));
      OpAssociates(k, h, Fold(k, ls[1..], env), Eval(ls[i], env));
    }
  }

  /** Replacing two operands by the unit and by their combination keeps the value. */
  lemma FoldJoin(k: Kind, ls: seq<Expr>, i: nat, j: nat, t: Expr, env: Env)
    requires i < |ls| && j < |ls| && i != j
    requires Eval(t, env) == k.Op(Eval(ls[i], env), Eval(ls[j], env))
    ensures Fold(k, ls[i := k.Unit()][j := t], env) == Fold(k, ls, env)
  {
    hide Fold;
    var ls1 := ls[i := k.Unit()];
    FoldUpdate(k, ls, i, k.Unit(), env);
    FoldUpdate(k, ls, j, t, env);
    FoldUpdate(k, ls1, j, t, env);
    FoldUpdate(k, ls1[j := t], j, t, env);
  }

  /** The two shapes a pass keeps. */
  datatype Shape = IsScoped | IsNormal
  {
    predicate Of(e: Expr) { if IsScoped? then Scoped(e) else Normal(e) }

    predicate OfAll(ls: seq<Expr>) { forall i :: 0 <= i < |ls| ==> Of(ls[i]) }
  }

  lemma {:induction false} RebuildShape(p: Shape, k: Kind, e: Expr, ls: seq<Expr>)
    requires |ls| == |Leaves(k, e)|
    ensures p.OfAll(ls) == p.Of(Rebuild(k, e, ls))
  {
    if k.Is(e) {
      var n := |Leaves(k, e.left)|;
      RebuildShape(p, k, e.left, ls[..n]);
      RebuildShape(p, k, e.right, ls[n..]);
      assert p.OfAll(ls) == (p.OfAll(ls[..n]) && p.OfAll(ls[n..])) by {
        assert forall i :: 0 <= i < |ls| ==> ls[i] == if i < n then ls[..n][i] else ls[n..][i - n];
      }
    } else {
      assert ls == [ls[0]];
    }
  }

  lemma PassShape(p: Shape, k: Kind, e: Expr)
    requires k.Is(e) && p.Of(e)
    ensures p.Of(Pass(k, e).result)
    decreases Size(e), 2, 0, 0
  {
    var ls := Leaves(k, e);
    LeavesBelow(k, e);
    RebuildLeaves(k, e);
    RebuildShape(p, k, e, ls);
    PairsShape(p, k, ls, 0, 0, Size(e));
    RebuildShape(p, k, e, Pairs(k, ls, 0, 0, Size(e)).result);
  }

  lemma {:induction false} PairsShape(p: Shape, k: Kind, ls: seq<Expr>, i: nat, j: nat, n: nat)
    requires Below(ls, n) && i <= |ls| && j <= |ls| && p.OfAll(ls)
    ensures p.OfAll(Pairs(k, ls, i, j, n).result)
    decreases n, 1, |ls| - i, |ls| - j
  {
    if i == |ls| {
    } else if j == |ls| {
      PairsShape(p, k, ls, i + 1, 0, n);
    } else {
      if i != j {
        FirstOperandShape(p, ls[i]);
        var e := FirstOperand(ls[i]).result;
        if Join(k, e, ls[j]).Some? {
          JoinForm(k, e, ls[j]);
        }
      }
      PairsShape(p, k, Pair(k, ls, i, j, n).result, i, j + 1, n);
    }
  }

  lemma {:induction false} FirstOperandShape(p: Shape, e: Expr)
    requires p.Of(e)
    ensures p.Of(FirstOperand(e).result)
    decreases Size(e), 3, 0, 0
  {
    if e.And? || e.Or? {
      PassShape(p, KindOf(e), e);
    }
  }

  /** One pass of expr_eliminate_dups1 keeps the value. */
  lemma {:induction false} PassValue(k: Kind, e: Expr, env: Env)
    requires k.Is(e) && Scoped(e)
    ensures Eval(Pass(k, e).result, env) == Eval(e, env)
    decreases Size(e), 2, 0, 0
  {
    var ls := Leaves(k, e);
    LeavesBelow(k, e);
    RebuildLeaves(k, e);
    RebuildShape(IsScoped, k, e, ls);
    RebuildValue(k, e, ls, env);
    PairsValue(k, ls, 0, 0, Size(e), env);
    RebuildValue(k, e, Pairs(k, ls, 0, 0, Size(e)).result, env);
  }

  lemma {:induction false} PairsValue(k: Kind, ls: seq<Expr>, i: nat, j: nat, n: nat, env: Env)
    requires Below(ls, n) && i <= |ls| && j <= |ls| && IsScoped.OfAll(ls)
    ensures Fold(k, Pairs(k, ls, i, j, n).result, env) == Fold(k, ls, env)
    decreases n, 1, |ls| - i, |ls| - j
  {
    if i == |ls| {
    } else if j == |ls| {
      PairsValue(k, ls, i + 1, 0, n, env);
    } else {
      PairValue(k, ls, i, j, n, env);
      PairsValue(k, Pair(k, ls, i, j, n).result, i, j + 1, n, env);
    }
  }

  lemma {:induction false} PairValue(k: Kind, ls: seq<Expr>, i: nat, j: nat, n: nat, env: Env)
    requires Below(ls, n) && i < |ls| && j < |ls| && IsScoped.OfAll(ls)
    ensures Fold(k, Pair(k, ls, i, j, n).result, env) == Fold(k, ls, env)
    ensures IsScoped.OfAll(Pair(k, ls, i, j, n).result)
    decreases n, 0, 0, 0
  {
    if i != j {
      var e := FirstOperand(ls[i]).result;
      FirstOperandShape(IsScoped, ls[i]);
      FirstOperandValue(ls[i], env);
      var t := Join(k, e, ls[j]);
      if t.Some? {
        JoinForm(k, e, ls[j]);
        if k.KOr? {
          JoinOrSound(e, ls[j], env);
        } else {
          ScopedNoClash(e, ls[j]);
          JoinAndSound(e, ls[j], env);
        }
        FoldJoin(k, ls, i, j, t.value, env);
      } else {
        FoldUpdate(k, ls, i, e, env);
        FoldUpdate(k, ls[i := e], i, e, env);
      }
    }
  }

  lemma {:induction false} FirstOperandValue(e: Expr, env: Env)
    requires Scoped(e)
    ensures Eval(FirstOperand(e).result, env) == Eval(e, env)
    decreases Size(e), 3, 0, 0
  {
    if e.And? || e.Or? {
      PassValue(KindOf(e), e, env);
    }
  }

  // ----- a pass that counts a join leaves something for expr_eliminate_yn -----

  function TotalOps(ls: seq<Expr>): nat
  {
    if ls == [] then 0 else Ops(ls[0]) + TotalOps(ls[1..])
  }

  lemma {:induction false} TotalOpsUpdate(ls: seq<Expr>, i: nat, x: Expr)
    requires i < |ls|
    ensures TotalOps(ls[i := x]) == TotalOps(ls) - Ops(ls[i]) + Ops(x)
  {
    if i == 0 {
      assert ls[i := x][1..] == ls[1..];
    } else {
      TotalOpsUpdate(ls[1..], i - 1, x);
      assert ls[i := x][1..] == ls[1..][i - 1 := x];
    }
  }

  lemma {:induction false} TotalOpsConcat(a: seq<Expr>, b: seq<Expr>)
    ensures TotalOps(a + b) == TotalOps(a) + TotalOps(b)
  {
    if a == [] {
      assert a + b == b;
    } else {
      TotalOpsConcat(a[1..], b);
      assert (a + b)[1..] == a[1..] + b;
    }
  }

  predicate Consumable(e: Expr) { IsUnitConst(e) || HasConstOperand(e) }

  lemma {:induction false} RebuildOps(k: Kind, e: Expr, ls: seq<Expr>)
    requires |ls| == |Leaves(k, e)|
    ensures Ops(Rebuild(k, e, ls)) + TotalOps(Leaves(k, e)) == Ops(e) + TotalOps(ls)
  {
    hide TotalOps;
    if k.Is(e) {
      var n := |Leaves(k, e.left)|;
      RebuildOps(k, e.left, ls[..n]);
      RebuildOps(k, e.right, ls[n..]);
      TotalOpsConcat(Leaves(k, e.left), Leaves(k, e.right));
      TotalOpsConcat(ls[..n], ls[n..]);
      assert ls[..n] + ls[n..] == ls;
    } else {
      assert ls == [ls[0]];
      TotalOpsOne(e);
      TotalOpsOne(ls[0]);
    }
  }

  lemma TotalOpsOne(e: Expr)
    ensures TotalOps([e]) == Ops(e)
  {
  }

  lemma {:induction false} RebuildConsumable(k: Kind, e: Expr, ls: seq<Expr>, i: nat)
    requires |ls| == |Leaves(k, e)| && i < |ls| && Consumable(ls[i])
    ensures Consumable(Rebuild(k, e, ls))
  {
    if k.Is(e) {
      var n := |Leaves(k, e.left)|;
      if i < n { RebuildConsumable(k, e.left, ls[..n], i); } else { RebuildConsumable(k, e.right, ls[n..], i - n); }
    }
  }

  /** A pass adds no connective. If it counted nothing the tree is unchanged; otherwise some connective
      now has y or n as an operand. */
  lemma {:induction false} PassProgress(k: Kind, e: Expr)
    requires k.Is(e)
    ensures Ops(Pass(k, e).result) <= Ops(e)
    ensures Pass(k, e).count == 0 ==> Pass(k, e).result == e
    ensures Pass(k, e).count > 0 ==> HasConstOperand(Pass(k, e).result)
    decreases Size(e), 2, 0, 0
  {
    var ls := Leaves(k, e);
    LeavesBelow(k, e);
    RebuildLeaves(k, e);
    PairsProgress(k, ls, 0, 0, Size(e));
    var w := Pairs(k, ls, 0, 0, Size(e));
    RebuildOps(k, e, w.result);
    if w.count > 0 {
      var i :| 0 <= i < |w.result| && Consumable(w.result[i]);
      RebuildConsumable(k, e, w.result, i);
    }
  }

  ghost predicate Progress(before: seq<Expr>, w: Walked<seq<Expr>>)
  {
    && TotalOps(w.result) <= TotalOps(before)
    && (w.count == 0 ==> w.result == before)
    && (w.count > 0 ==> exists i :: 0 <= i < |w.result| && Consumable(w.result[i]))
  }

  lemma {:induction false} PairsProgress(k: Kind, ls: seq<Expr>, i: nat, j: nat, n: nat)
    requires Below(ls, n) && i <= |ls| && j <= |ls|
    ensures Progress(ls, Pairs(k, ls, i, j, n))
    decreases n, 1, |ls| - i, |ls| - j
  {
    if i == |ls| {
    } else if j == |ls| {
      PairsProgress(k, ls, i + 1, 0, n);
    } else {
      PairProgress(k, ls, i, j, n);
      PairsProgress(k, Pair(k, ls, i, j, n).result, i, j + 1, n);
    }
  }

  lemma {:induction false} PairProgress(k: Kind, ls: seq<Expr>, i: nat, j: nat, n: nat)
    requires Below(ls, n) && i < |ls| && j < |ls|
    ensures Progress(ls, Pair(k, ls, i, j, n))
    decreases n, 0, 0, 0
  {
    if i != j {
      FirstOperandProgress(ls[i]);
      var e := FirstOperand(ls[i]).result;
      var t := Join(k, e, ls[j]);
      var w := Pair(k, ls, i, j, n);
      if t.Some? {
        JoinForm(k, e, ls[j]);
        TotalOpsUpdate(ls, i, k.Unit());
        TotalOpsUpdate(ls[i := k.Unit()], j, t.value);
        assert Consumable(w.result[i]);
      } else {
        TotalOpsUpdate(ls, i, e);
        if w.count > 0 { assert Consumable(w.result[i]); }
      }
    }
  }

  lemma {:induction false} FirstOperandProgress(e: Expr)
    ensures Ops(FirstOperand(e).result) <= Ops(e)
    ensures FirstOperand(e).count == 0 ==> FirstOperand(e).result == e
    ensures FirstOperand(e).count > 0 ==> HasConstOperand(FirstOperand(e).result)
    decreases Size(e), 3, 0, 0
  {
    if e.And? || e.Or? {
      PassProgress(KindOf(e), e);
    }
  }

  // ----- expr_eliminate_dups -----

  /** Number of joins one pass makes. */
  function JoinsIn(e: Expr): nat
  {
    if e.And? || e.Or? then Pass(KindOf(e), e).count else 0
  }

  /** The meeting of leaves i and j changes nothing. */
  predicate Quiet(k: Kind, ls: seq<Expr>, i: nat, j: nat)
    requires i < |ls| && j < |ls|
  {
    i == j || (JoinsIn(ls[i]) == 0 && Join(k, ls[i], ls[j]).None?)
  }

  predicate QuietFrom(k: Kind, ls: seq<Expr>, i: nat, j: nat)
    requires i <= |ls| && j <= |ls|
  {
    forall x, y :: 0 <= x < |ls| && 0 <= y < |ls| && (x > i || (x == i && y >= j)) ==> Quiet(k, ls, x, y)
  }

  lemma {:induction false} PairsQuiet(k: Kind, ls: seq<Expr>, i: nat, j: nat, n: nat)
    requires Below(ls, n) && i <= |ls| && j <= |ls|
    ensures Pairs(k, ls, i, j, n).count == 0 <==> QuietFrom(k, ls, i, j)
    decreases |ls| - i, |ls| - j
  {
    if i == |ls| {
    } else if j == |ls| {
      PairsQuiet(k, ls, i + 1, 0, n);
    } else {
      PairProgress(k, ls, i, j, n);
      PairQuiet(k, ls, i, j, n);
      QuietStep(k, ls, i, j);
      if Quiet(k, ls, i, j) { PairsQuiet(k, ls, i, j + 1, n); }
    }
  }

  lemma PairQuiet(k: Kind, ls: seq<Expr>, i: nat, j: nat, n: nat)
    requires Below(ls, n) && i < |ls| && j < |ls|
    ensures Pair(k, ls, i, j, n).count == 0 <==> Quiet(k, ls, i, j)
  {
    FirstOperandProgress(ls[i]);
  }

  lemma QuietStep(k: Kind, ls: seq<Expr>, i: nat, j: nat)
    requires i < |ls| && j < |ls|
    ensures QuietFrom(k, ls, i, j) <==> Quiet(k, ls, i, j) && QuietFrom(k, ls, i, j + 1)
  {
    hide Quiet;
  }

  /** A pass makes no join exactly when, at its top level and inside every operand of the other connective,
      no two distinct operands can be joined in either order. */
  lemma NothingToJoin(k: Kind, e: Expr)
    requires k.Is(e)
    ensures var ls := Leaves(k, e);
            JoinsIn(e) == 0 <==> QuietFrom(k, ls, 0, 0)
  {
    var ls := Leaves(k, e);
    LeavesBelow(k, e);
    PairsQuiet(k, ls, 0, 0, Size(e));
    assert KindOf(e) == k;
    assert Pass(k, e).count == Pairs(k, ls, 0, 0, Size(e)).count;
  }

  // ----- what a tree without joins looks like -----

  /** `=` or `!=` tests of one tristate symbol with different constants of y, m and n. */
  predicate TestsOfOne(op: CmpOp, a: Expr, b: Expr)
  {
    && a.Comp? && b.Comp? && a.op == op == b.op && a.lhs == b.lhs && a.lhs.Tristate?
    && a.rhs.IsYMN() && b.rhs.IsYMN() && a.rhs != b.rhs
  }

  /** Equal up to reordering and regrouping. */
  predicate SameForm(a: Expr, b: Expr) { Clean(a) && Clean(b) && FormOf(a) == FormOf(b) }

  /** Two disjuncts that say no more than one could. */
  predicate RedundantOr(a: Expr, b: Expr)
  {
    || SameForm(a, b)
    || TestsOfOne(Equal, a, b)
    || (a.Symbol? && a.sym.Bool? && b == Not(a))
  }

  /** Two conjuncts that say no more than one could. */
  predicate RedundantAnd(a: Expr, b: Expr)
  {
    || SameForm(a, b)
    || (a.Symbol? && (a.sym.Bool? || a.sym.Tristate?)
        && (b == Comp(Equal, a.sym, Yes) || b == Comp(Unequal, a.sym, No) || b == Comp(Unequal, a.sym, Mod)))
    || TestsOfOne(Unequal, a, b)
    || (a.Comp? && b.Comp? && a.op.Equal? && b.op.Unequal? && a.lhs == b.lhs && a.lhs.Tristate?
        && a.rhs.IsConst() && b.rhs.IsConst())
  }

  predicate Redundant(k: Kind, a: Expr, b: Expr)
  {
    if k.KOr? then RedundantOr(a, b) || RedundantOr(b, a) else RedundantAnd(a, b) || RedundantAnd(b, a)
  }

  /** At no level outside negations are there two redundant operands. */
  ghost predicate Irredundant(e: Expr)
    decreases Size(e)
  {
    if e.And? || e.Or? then
      var k := KindOf(e);
      var ls := Leaves(k, e);
      LeavesBelow(k, e);
      && (forall i, j :: 0 <= i < |ls| && 0 <= j < |ls| && i != j ==> !Redundant(k, ls[i], ls[j]))
      && (forall i :: 0 <= i < |ls| ==> Size(ls[i]) < Size(e) && Irredundant(ls[i]))
    else true
  }

  lemma RedundantJoins(k: Kind, a: Expr, b: Expr)
    requires Redundant(k, a, b)
    ensures Join(k, a, b).Some?
  {
    if SameForm(a, b) {
      EqExact(a, b);
    } else {
      RedundantRule(k, a, b);
    }
  }

  lemma RedundantRule(k: Kind, a: Expr, b: Expr)
    requires Redundant(k, a, b) && !SameForm(a, b)
    ensures Join(k, a, b).Some?
  {
    hide Eq, SameForm;
    assert !SameForm(b, a) by { FormsCommute(a, b); }
  }

  lemma FormsCommute(a: Expr, b: Expr)
    ensures SameForm(a, b) <==> SameForm(b, a)
  {
  }

  /** Where a pass finds nothing to join no operand is redundant, at any level. */
  lemma {:induction false} QuietIrredundant(e: Expr)
    requires JoinsIn(e) == 0
    ensures Irredundant(e)
    decreases Size(e)
  {
    if e.And? || e.Or? {
      var k := KindOf(e);
      var ls := Leaves(k, e);
      LeavesBelow(k, e);
      TwoLeaves(k, e);
      NothingToJoin(k, e);
      forall i | 0 <= i < |ls| ensures Size(ls[i]) < Size(e) && Irredundant(ls[i]) {
        assert Quiet(k, ls, i, if i == 0 then 1 else 0);
        QuietIrredundant(ls[i]);
      }
      forall i, j | 0 <= i < |ls| && 0 <= j < |ls| && i != j ensures !Redundant(k, ls[i], ls[j]) {
        assert Quiet(k, ls, i, j);
        if Redundant(k, ls[i], ls[j]) { RedundantJoins(k, ls[i], ls[j]); }
      }
    }
  }

  lemma TwoLeaves(k: Kind, e: Expr)
    requires k.Is(e)
    ensures |Leaves(k, e)| >= 2
  {
  }

  /** The global trans_count and the loop that reads it. */
  class Rewriter {
    var transCount: nat

    /** expr_eliminate_dups. The loop ends because each pass that joins something lets expr_eliminate_yn
        take away an AND or OR node. The result is a fixed point: no two operands join any more. */
    method EliminateDups(e: Expr) returns (r: Expr)
      requires Scoped(e)
      modifies this
      ensures forall env: Env :: Eval(r, env) == Eval(e, env)
      ensures JoinsIn(r) == 0 && Irredundant(r) && Ops(r) <= Ops(e)
      ensures Scoped(r) && (Normal(e) ==> Normal(r))
      ensures r == EliminatedDups(e)
      ensures transCount == old(transCount)
    {
      var oldCount := transCount;
      r := e;
      while true
        invariant forall env: Env :: Eval(r, env) == Eval(e, env)
        invariant Scoped(r) && (Normal(e) ==> Normal(r)) && Ops(r) <= Ops(e)
        invariant EliminatedDups(r) == EliminatedDups(e)
        decreases Ops(r)
      {
        transCount := 0;
        ghost var before := r;
        if r.And? || r.Or? {
          var w := Pass(KindOf(r), r);
          r, transCount := w.result, transCount + w.count;
          PassProgress(KindOf(before), before);
        }
        if transCount == 0 {
          break;
        }
        RoundSound(before);
        r := EliminateYn(r);
      }
      transCount := oldCount;
      QuietIrredundant(r);
    }
  }

  /** A pass and the elimination of the constants it left. */
  lemma RoundSound(e: Expr)
    requires Scoped(e) && JoinsIn(e) > 0
    ensures var r := EliminateYn(Pass(KindOf(e), e).result);
            && (forall env: Env :: Eval(r, env) == Eval(e, env))
            && Scoped(r) && (Normal(e) ==> Normal(r))
            && Ops(r) < Ops(e)
  {
    var k := KindOf(e);
    var p := Pass(k, e).result;
    forall env: Env ensures Eval(EliminateYn(p), env) == Eval(e, env) {
      PassValue(k, e, env);
      EliminateYnValue(p, env);
    }
    PassProgress(k, e);
    PassShape(IsScoped, k, e);
    if Normal(e) { PassShape(IsNormal, k, e); }
    EliminateYnShrinks(p);
    EliminateYnForm(p);
  }

  /** What expr_eliminate_dups computes. */
  function EliminatedDups(e: Expr): Expr
    decreases Ops(e)
  {
    if JoinsIn(e) == 0 then e
    else
      var p := Pass(KindOf(e), e).result;
      PassProgress(KindOf(e), e);
      EliminateYnShrinks(p);
      EliminatedDups(EliminateYn(p))
  }

  /** expr_eliminate_dups keeps the value under every assignment and both shapes, and leaves nothing to join. */
  lemma {:induction false} EliminatedDupsSound(e: Expr, env: Env)
    requires Scoped(e)
    ensures Eval(EliminatedDups(e), env) == Eval(e, env)
    ensures JoinsIn(EliminatedDups(e)) == 0 && Irredundant(EliminatedDups(e))
    ensures Scoped(EliminatedDups(e)) && (Normal(e) ==> Normal(EliminatedDups(e)))
    decreases Ops(e)
  {
    if JoinsIn(e) > 0 {
      RoundSound(e);
      EliminatedDupsSound(EliminateYn(Pass(KindOf(e), e).result), env);
    } else {
      QuietIrredundant(e);
    }
  }
}
