/** Structural equality up to operand order, and factoring of common operands
    (expr_eq, __expr_eliminate_eq and expr_eliminate_eq in nemu/tools/kconfig/expr.c). */
module KconfigEq {
  import opened KconfigExpr

  /** __expr_eliminate_eq: every leaf of `e1` meets every leaf of `e2`, in order; each pair of equal leaves
      is replaced, on both sides, by the unit of the connective. A constant y or n meeting itself is left
      alone. */
  function EliminateEqWalk(k: Kind, e1: Expr, e2: Expr): (p: (Expr, Expr))
    ensures Size(p.0) <= Size(e1) && Size(p.1) <= Size(e2)
    ensures k.Is(p.0) == k.Is(e1) && k.Is(p.1) == k.Is(e2)
    decreases Size(e1) + Size(e2), if k.Is(e1) || k.Is(e2) then 0 else 3
  {
    if k.Is(e1) then
      var p := EliminateEqWalk(k, e1.left, e2);
      var q := EliminateEqWalk(k, e1.right, p.1);
      (k.Node(p.0, q.0), q.1)
    else if k.Is(e2) then
      var p := EliminateEqWalk(k, e1, e2.left);
      var q := EliminateEqWalk(k, p.0, e2.right);
      (q.0, k.Node(p.1, q.1))
    else if e1 == e2 && IsUnitConst(e1) then (e1, e2)
    else if Eq(e1, e2) then (k.Unit(), k.Unit())
    else (e1, e2)
  }

  /** expr_eliminate_eq on two present trees. */
  function EliminateEq(e1: Expr, e2: Expr): (Expr, Expr)
    decreases Size(e1) + Size(e2), 1
  {
    var p := if e1.And? || e1.Or? then EliminateEqWalk(KindOf(e1), e1, e2) else (e1, e2);
    var q := if (p.1.And? || p.1.Or?) && !KindOf(p.1).Is(p.0) then EliminateEqWalk(KindOf(p.1), p.0, p.1) else p;
    (EliminateYn(q.0), EliminateYn(q.1))
  }

  /** expr_eq on two present trees. */
  predicate Eq(e1: Expr, e2: Expr)
    decreases Size(e1) + Size(e2), 2
  {
    match (e1, e2)
    case (Comp(o1, l1, r1), Comp(o2, l2, r2)) => o1 == o2 && l1 == l2 && r1 == r2
    case (Symbol(s1), Symbol(s2)) => s1 == s2
    case (Not(a1), Not(a2)) => Eq(a1, a2)
    case (And(_, _), And(_, _)) => var p := EliminateEq(e1, e2); p.0.Symbol? && p.0 == p.1
    case (Or(_, _), Or(_, _)) => var p := EliminateEq(e1, e2); p.0.Symbol? && p.0 == p.1
    case _ => false
  }

  /** expr_is_yes. */
  predicate IsYes(e: Option<Expr>) { e.None? || e.value == Symbol(Yes) }

  /** expr_eq, where NULL reads as yes. */
  predicate EqOpt(e1: Option<Expr>, e2: Option<Expr>)
  {
    if e1.None? || e2.None? then IsYes(e1) && IsYes(e2) else Eq(e1.value, e2.value)
  }

  /** A pair of trees splits over `v`: both are `v` combined with what is left. */
  ghost predicate Factored(k: Kind, v: Tri, e1: Expr, e2: Expr, p: (Expr, Expr), env: Env)
  {
    Eval(e1, env) == k.Op(v, Eval(p.0, env)) && Eval(e2, env) == k.Op(v, Eval(p.1, env))
  }

  lemma CombineFactors(k: Kind, v1: Tri, v2: Tri, x: Tri, y: Tri)
    ensures k.Op(k.Op(v1, x), k.Op(v2, y)) == k.Op(k.Op(v1, v2), k.Op(x, y))
    ensures k.Op(v1, k.Op(v2, x)) == k.Op(k.Op(v1, v2), x)
  {
  }

  /** The walk takes one common value out of both sides. */
  lemma {:induction false} EliminateEqWalkFactors(k: Kind, e1: Expr, e2: Expr, env: Env) returns (v: Tri)
    ensures Factored(k, v, e1, e2, EliminateEqWalk(k, e1, e2), env)
    decreases Size(e1) + Size(e2), if k.Is(e1) || k.Is(e2) then 0 else 3
  {
    if k.Is(e1) {
      var p := EliminateEqWalk(k, e1.left, e2);
      var q := EliminateEqWalk(k, e1.right, p.1);
      var v1 := EliminateEqWalkFactors(k, e1.left, e2, env);
      var v2 := EliminateEqWalkFactors(k, e1.right, p.1, env);
      v := k.Op(v1, v2);
      CombineFactors(k, v1, v2, Eval(p.0, env), Eval(q.0, env));
      CombineFactors(k, v1, v2, Eval(q.1, env), YES);
      assert Eval(k.Node(p.0, q.0), env) == k.Op(Eval(p.0, env), Eval(q.0, env));
    } else if k.Is(e2) {
      var p := EliminateEqWalk(k, e1, e2.left);
      var q := EliminateEqWalk(k, p.0, e2.right);
      var v1 := EliminateEqWalkFactors(k, e1, e2.left, env);
      var v2 := EliminateEqWalkFactors(k, p.0, e2.right, env);
      v := k.Op(v1, v2);
      CombineFactors(k, v1, v2, Eval(p.1, env), Eval(q.1, env));
      CombineFactors(k, v1, v2, Eval(q.0, env), YES);
      assert Eval(k.Node(p.1, q.1), env) == k.Op(Eval(p.1, env), Eval(q.1, env));
    } else if !(e1 == e2 && IsUnitConst(e1)) && Eq(e1, e2) {
      EqSound(e1, e2, env);
      v := Eval(e1, env);
    } else {
      v := Eval(k.Unit(), env);
    }
  }

  /** expr_eliminate_eq factors one common value out of both trees: under one connective, both are that value
      combined with the remaining tree. */
  lemma {:induction false} EliminateEqFactors(e1: Expr, e2: Expr, env: Env) returns (k: Kind, v: Tri)
    ensures Factored(k, v, e1, e2, EliminateEq(e1, e2), env)
    decreases Size(e1) + Size(e2), 1
  {
    var p := if e1.And? || e1.Or? then EliminateEqWalk(KindOf(e1), e1, e2) else (e1, e2);
    var q := if (p.1.And? || p.1.Or?) && !KindOf(p.1).Is(p.0) then EliminateEqWalk(KindOf(p.1), p.0, p.1) else p;
    EliminateYnValue(q.0, env);
    EliminateYnValue(q.1, env);
    if e1.And? || e1.Or? {
      k := KindOf(e1);
      v := EliminateEqWalkFactors(k, e1, e2, env);
      if (p.1.And? || p.1.Or?) && !k.Is(p.1) {
        WalkKeepsOtherConnective(k, e1, e2);
        k := KindOf(p.1);
        v := EliminateEqWalkFactors(k, p.0, p.1, env);
      }
    } else if e2.And? || e2.Or? {
      k := KindOf(e2);
      v := EliminateEqWalkFactors(k, e1, e2, env);
    } else {
      k, v := KAnd, YES;
    }
  }

  /** A second tree under the other connective is one leaf of the first walk: it is still a tree only if
      it met no equal, and then the first tree is untouched too. */
  lemma {:induction false} WalkKeepsOtherConnective(k: Kind, e1: Expr, e2: Expr)
    requires !k.Is(e2)
    ensures var p := EliminateEqWalk(k, e1, e2);
            p.1.And? || p.1.Or? ==> p == (e1, e2)
    decreases e1
  {
    if k.Is(e1) {
      var p := EliminateEqWalk(k, e1.left, e2);
      WalkKeepsOtherConnective(k, e1.left, e2);
      WalkKeepsOtherConnective(k, e1.right, p.1);
      UnitStays(k, e1.right, p.1);
    }
  }

  lemma {:induction false} UnitStays(k: Kind, e1: Expr, e2: Expr)
    ensures e2.Symbol? ==> EliminateEqWalk(k, e1, e2).1.Symbol?
  {
    if k.Is(e1) && e2.Symbol? {
      UnitStays(k, e1.left, e2);
      UnitStays(k, e1.right, EliminateEqWalk(k, e1.left, e2).1);
    }
  }

  /** expr_eq answers true only for trees with the same value under every assignment. */
  lemma {:induction false} EqSound(e1: Expr, e2: Expr, env: Env)
    ensures Eq(e1, e2) ==> Eval(e1, env) == Eval(e2, env)
    decreases Size(e1) + Size(e2), 2
  {
    if Eq(e1, e2) {
      if e1.Not? {
        EqSound(e1.arg, e2.arg, env);
      } else if e1.And? || e1.Or? {
        var k, v := EliminateEqFactors(e1, e2, env);
      }
    }
  }

  /** expr_eq, with NULL standing for yes, answers true only for equal values. */
  lemma EqOptSound(e1: Option<Expr>, e2: Option<Expr>, env: Env)
    ensures EqOpt(e1, e2) ==> EvalOpt(e1, env) == EvalOpt(e2, env)
  {
    if e1.Some? && e2.Some? {
      EqSound(e1.value, e2.value, env);
    }
  }
}
