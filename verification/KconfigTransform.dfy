/** Negation-normal form, and the rewriting of `e` as `e != n`
    (expr_transform, expr_trans_bool, expr_trans_compare in nemu/tools/kconfig/expr.c). */
module KconfigTransform {
  import opened KconfigExpr

  // ----- expr_transform -----

  /** The measure by which expr_transform terminates although !(a || b) -> !a && !b adds a node: what stands
      under a negation weighs twice. */
  function Weight(e: Expr): (w: nat)
    ensures w >= 1
  {
    match e
    case Symbol(_) => 1
    case Comp(_, _, _) => 2
    case Not(a) => 2 * Weight(a)
    case And(a, b) => 1 + Weight(a) + Weight(b)
    case Or(a, b) => 1 + Weight(a) + Weight(b)
  }

  /** A De Morgan step, applied to operands that are already transformed, lowers the weight. */
  lemma DeMorganWeight(b: Expr, c: Expr)
    ensures Weight(And(Not(b), Not(c))) == 1 + 2 * Weight(b) + 2 * Weight(c) < Weight(Not(Or(b, c)))
    ensures Weight(Or(Not(b), Not(c))) == 1 + 2 * Weight(b) + 2 * Weight(c) < Weight(Not(And(b, c)))
  {
    assert Weight(Not(b)) == 2 * Weight(b) && Weight(Not(c)) == 2 * Weight(c);
    assert Weight(Or(b, c)) == 1 + Weight(b) + Weight(c) == Weight(And(b, c));
  }

  /** A bool symbol compared with y, m or n by = or !=. */
  function TransformComp(op: CmpOp, l: Sym, r: Sym): Expr
  {
    if !l.Bool? || !r.IsYMN() then Comp(op, l, r)
    else if op.Equal? then
      if r.No? then Not(Symbol(l)) else if r.Mod? then Symbol(No) else Symbol(l)
    else if op.Unequal? then
      if r.No? then Symbol(l) else if r.Mod? then Symbol(Yes) else Not(Symbol(l))
    else Comp(op, l, r)
  }

  /** The operator under which `!(a op b)` is written without the negation. */
  function Complement(op: CmpOp): CmpOp
  {
    match op
    case Equal => Unequal
    case Unequal => Equal
    case Leq => Gth
    case Geq => Lth
    case Lth => Geq
    case Gth => Leq
  }

  /** expr_transform. */
  function Transform(e: Expr): (r: Expr)
    ensures Weight(r) <= Weight(e)
    decreases Weight(e)
  {
    match e
    case Symbol(_) => e
    case Comp(op, l, r) => TransformComp(op, l, r)
    case And(a, b) => And(Transform(a), Transform(b))
    case Or(a, b) => Or(Transform(a), Transform(b))
    case Not(a) =>
      match Transform(a)
      case Not(b) => Transform(b)
      case Comp(op, l, r) => Comp(Complement(op), l, r)
      case Or(b, c) => DeMorganWeight(b, c); Transform(And(Not(b), Not(c)))
      case And(b, c) => DeMorganWeight(b, c); Transform(Or(Not(b), Not(c)))
      case Symbol(s) =>
        if s.Yes? then Symbol(No) else if s.Mod? then Symbol(Mod) else if s.No? then Symbol(Yes) else Not(Symbol(s))
  }

  /** expr_transform keeps the value under every assignment. */
  lemma {:induction false} TransformValue(e: Expr, env: Env)
    ensures Eval(Transform(e), env) == Eval(e, env)
    decreases Weight(e)
  {
    match e
    case Symbol(_) =>
    case Comp(_, _, _) =>
    case And(a, b) => TransformValue(a, env); TransformValue(b, env);
    case Or(a, b) => TransformValue(a, env); TransformValue(b, env);
    case Not(a) =>
      TransformValue(a, env);
      match Transform(a) {
        case Not(b) => TransformValue(b, env);
        case Or(b, c) =>
          DeMorganWeight(b, c);
          TransformValue(And(Not(b), Not(c)), env);
          assert Eval(Not(b), env) == TriNot(Eval(b, env)) && Eval(Not(c), env) == TriNot(Eval(c, env));
        case And(b, c) =>
          DeMorganWeight(b, c);
          TransformValue(Or(Not(b), Not(c)), env);
          assert Eval(Not(b), env) == TriNot(Eval(b, env)) && Eval(Not(c), env) == TriNot(Eval(c, env));
        case _ =>
      }
  }

  /** The result has NOT only directly above symbols other than y/m/n and no bool symbol tested against
      y/m/n, and comparisons stay within scope. */
  lemma {:induction false} TransformNormal(e: Expr)
    ensures Normal(Transform(e))
    ensures Scoped(e) ==> Scoped(Transform(e))
    decreases Weight(e)
  {
    match e
    case Symbol(_) =>
    case Comp(_, _, _) =>
    case And(a, b) => TransformNormal(a); TransformNormal(b);
    case Or(a, b) => TransformNormal(a); TransformNormal(b);
    case Not(a) =>
      TransformNormal(a);
      match Transform(a) {
        case Not(b) => TransformNormal(b);
        case Or(b, c) =>
          DeMorganWeight(b, c);
          TransformNormal(And(Not(b), Not(c)));
          assert Scoped(Not(b)) == Scoped(b) && Scoped(Not(c)) == Scoped(c);
        case And(b, c) =>
          DeMorganWeight(b, c);
          TransformNormal(Or(Not(b), Not(c)));
          assert Scoped(Not(b)) == Scoped(b) && Scoped(Not(c)) == Scoped(c);
        case _ =>
      }
  }

  /** The normal forms are exactly the trees expr_transform leaves alone. */
  lemma {:induction false} NormalIffFixed(e: Expr)
    ensures Normal(e) <==> Transform(e) == e
    decreases e
  {
    match e
    case And(a, b) => NormalIffFixed(a); NormalIffFixed(b);
    case Or(a, b) => NormalIffFixed(a); NormalIffFixed(b);
    case Not(a) =>
      NormalIffFixed(a);
      if Transform(e) == e { TransformNormal(e); }
    case _ =>
  }

  /** expr_transform is idempotent. */
  lemma TransformIdempotent(e: Expr)
    ensures Transform(Transform(e)) == Transform(e)
  {
    TransformNormal(e);
    NormalIffFixed(Transform(e));
  }

  // ----- expr_trans_bool -----

  /** expr_trans_bool: FOO!=n -> FOO for tristate FOO. */
  function TransBool(e: Expr): Expr
  {
    match e
    case And(a, b) => And(TransBool(a), TransBool(b))
    case Or(a, b) => Or(TransBool(a), TransBool(b))
    case Not(a) => Not(TransBool(a))
    case Comp(Unequal, l, r) => if l.Tristate? && r.No? then Symbol(l) else e
    case _ => e
  }

  /** No tristate symbol is tested against n with !=. */
  predicate NoTestLeft(e: Expr)
  {
    match e
    case And(a, b) => NoTestLeft(a) && NoTestLeft(b)
    case Or(a, b) => NoTestLeft(a) && NoTestLeft(b)
    case Not(a) => NoTestLeft(a)
    case Comp(op, l, r) => !(op.Unequal? && l.Tristate? && r.No?)
    case Symbol(_) => true
  }

  /** expr_trans_bool rewrites every such test, adds none, and leaves a tree without them alone. */
  lemma {:induction false} TransBoolComplete(e: Expr)
    ensures NoTestLeft(TransBool(e)) && Size(TransBool(e)) == Size(e)
    ensures NoTestLeft(e) <==> TransBool(e) == e
  {
    match e
    case And(a, b) => TransBoolComplete(a); TransBoolComplete(b);
    case Or(a, b) => TransBoolComplete(a); TransBoolComplete(b);
    case Not(a) => TransBoolComplete(a);
    case _ =>
  }

  /** Every FOO!=n that expr_trans_bool rewrites stands under an even number of negations, counted from `positive`. */
  predicate RewritesOnly(e: Expr, positive: bool)
  {
    match e
    case And(a, b) => RewritesOnly(a, positive) && RewritesOnly(b, positive)
    case Or(a, b) => RewritesOnly(a, positive) && RewritesOnly(b, positive)
    case Not(a) => RewritesOnly(a, !positive)
    case Comp(Unequal, l, r) => l.Tristate? && r.No? ==> positive
    case _ => true
  }

  /** Then expr_trans_bool, which lowers the leaves it rewrites, raises no value and keeps `no` exactly; under an odd
      number of negations it lowers no value and keeps `yes` exactly. */
  lemma {:induction false} TransBoolPolarity(e: Expr, positive: bool, env: Env)
    requires RewritesOnly(e, positive)
    ensures var before, after := Eval(e, env), Eval(TransBool(e), env);
            if positive then after <= before && (after == NO <==> before == NO)
            else after >= before && (after == YES <==> before == YES)
  {
    match e
    case And(a, b) => TransBoolPolarity(a, positive, env); TransBoolPolarity(b, positive, env);
    case Or(a, b) => TransBoolPolarity(a, positive, env); TransBoolPolarity(b, positive, env);
    case Not(a) => TransBoolPolarity(a, !positive, env);
    case _ =>
  }

  lemma {:induction false} NormalRewrites(e: Expr)
    requires Normal(e)
    ensures RewritesOnly(e, true)
  {
    match e
    case And(a, b) => NormalRewrites(a); NormalRewrites(b);
    case Or(a, b) => NormalRewrites(a); NormalRewrites(b);
    case _ =>
  }

  /** On a normal form expr_trans_bool lowers no value to `no` and raises none: it is `no` exactly when it was. */
  lemma TransBoolKeepsNo(e: Expr, env: Env)
    requires Normal(e)
    ensures Eval(TransBool(e), env) == NO <==> Eval(e, env) == NO
    ensures Eval(TransBool(e), env) <= Eval(e, env)
  {
    NormalRewrites(e);
    TransBoolPolarity(e, true, env);
  }

  /** Under a negation it does not keep it: with FOO = m, !(FOO!=n) is `no` but !FOO is `mod`. */
  lemma TransBoolUnderNegation() returns (e: Expr, env: Env)
    ensures !RewritesOnly(e, true) && Eval(e, env) == NO && Eval(TransBool(e), env) == MOD
  {
    e := Not(Comp(Unequal, Tristate(0), No));
    env := Env(_ => false, _ => MOD, (_, _) => 0);
  }

  /** But another operand can hide it, so that no condition on where the rewritten leaves stand is exact. */
  lemma TransBoolMasked() returns (e: Expr)
    ensures !RewritesOnly(e, true) && forall env: Env :: Eval(e, env) == NO && Eval(TransBool(e), env) == NO
  {
    e := And(Symbol(No), Not(Comp(Unequal, Tristate(0), No)));
  }

  // ----- expr_trans_compare -----

  /** expr_trans_compare(e, E_UNEQUAL, &symbol_no) if `unequal`, otherwise expr_trans_compare(e, E_EQUAL,
      &symbol_no). */
  function TransCompareNo(e: Expr, unequal: bool): Expr
  {
    match e
    case And(a, b) =>
      var r := Or(TransCompareNo(a, false), TransCompareNo(b, false));
      if unequal then Not(r) else r
    case Or(a, b) =>
      var r := And(TransCompareNo(a, false), TransCompareNo(b, false));
      if unequal then Not(r) else r
    case Not(a) => TransCompareNo(a, !unequal)
    case Comp(_, _, _) => if unequal then e else Not(e)
    case Symbol(s) => Comp(if unequal then Unequal else Equal, s, No)
  }

  /** The same for a missing expression. */
  function TransCompareNoOpt(e: Option<Expr>): Expr
  {
    if e.None? then Not(Symbol(No)) else TransCompareNo(e.value, true)
  }

  /** Symbols in logical position are bool, tristate or y/m/n. */
  predicate Logical(e: Expr)
  {
    match e
    case Symbol(s) => !s.Other? && !s.Text?
    case Not(a) => Logical(a)
    case And(a, b) => Logical(a) && Logical(b)
    case Or(a, b) => Logical(a) && Logical(b)
    case Comp(_, _, _) => true
  }

  /** The value of an expression in which every symbol counts as y or n: as y unless it is equal to n. */
  function Lifted(e: Expr, env: Env): Tri
  {
    match e
    case Symbol(s) => Eval(Comp(Unequal, s, No), env)
    case Not(a) => TriNot(Lifted(a, env))
    case And(a, b) => TriAnd(Lifted(a, env), Lifted(b, env))
    case Or(a, b) => TriOr(Lifted(a, env), Lifted(b, env))
    case Comp(_, _, _) => Eval(e, env)
  }

  /** That is, for every expression, what rewriting as `e != n` computes; `e = n` is its negation. */
  lemma {:induction false} TransCompareNoExact(e: Expr, unequal: bool, env: Env)
    ensures Eval(TransCompareNo(e, unequal), env) == if unequal then Lifted(e, env) else TriNot(Lifted(e, env))
    ensures Lifted(e, env) != MOD
    ensures Scoped(e) ==> Scoped(TransCompareNo(e, unequal))
  {
    match e
    case And(a, b) => TransCompareNoExact(a, false, env); TransCompareNoExact(b, false, env);
    case Or(a, b) => TransCompareNoExact(a, false, env); TransCompareNoExact(b, false, env);
    case Not(a) => TransCompareNoExact(a, !unequal, env);
    case _ =>
  }

  /** On logical symbols it reads m as y. */
  lemma LiftedSymbol(s: Sym, env: Env)
    requires !s.Other? && !s.Text?
    ensures Lifted(Symbol(s), env) == if SymVal(s, env) == NO then NO else YES
  {
  }

  /** So it is y where e is y and n where e is n. */
  lemma {:induction false} LiftedSound(e: Expr, env: Env)
    requires Logical(e)
    ensures Eval(e, env) == YES ==> Lifted(e, env) == YES
    ensures Eval(e, env) == NO ==> Lifted(e, env) == NO
  {
    TransCompareNoExact(e, true, env);
    match e
    case Symbol(s) => LiftedSymbol(s, env);
    case And(a, b) =>
      LiftedSound(a, env);
      LiftedSound(b, env);
      TransCompareNoExact(a, true, env);
      TransCompareNoExact(b, true, env);
    case Or(a, b) =>
      LiftedSound(a, env);
      LiftedSound(b, env);
      TransCompareNoExact(a, true, env);
      TransCompareNoExact(b, true, env);
    case Not(a) => LiftedSound(a, env);
    case _ =>
  }

  /** Rewriting as `e != n` gives a two-valued tree, yes where e is yes and no where e is no; `e = n` is
      the other way round. */
  lemma TransCompareNoSound(e: Expr, unequal: bool, env: Env)
    requires Logical(e)
    ensures Eval(TransCompareNo(e, unequal), env) != MOD
    ensures Eval(e, env) == YES ==> Eval(TransCompareNo(e, unequal), env) == if unequal then YES else NO
    ensures Eval(e, env) == NO ==> Eval(TransCompareNo(e, unequal), env) == if unequal then NO else YES
    ensures Scoped(e) ==> Scoped(TransCompareNo(e, unequal))
  {
    TransCompareNoExact(e, unequal, env);
    LiftedSound(e, env);
  }

  /** It is not the comparison of the value with n: with FOO = m, !FOO is `mod` and not `no`, but !FOO != n is `no`. */
  lemma NegatedMod() returns (e: Expr, env: Env)
    ensures Logical(e) && Eval(e, env) == MOD && Eval(TransCompareNo(e, true), env) == NO
  {
    e := Not(Symbol(Tristate(0)));
    env := Env(_ => false, _ => MOD, (_, _) => 0);
  }

  /** Without a negation above a value of m it is. */
  ghost predicate NoNegatedMod(e: Expr, env: Env)
  {
    match e
    case Not(a) => Eval(a, env) != MOD && NoNegatedMod(a, env)
    case And(a, b) => NoNegatedMod(a, env) && NoNegatedMod(b, env)
    case Or(a, b) => NoNegatedMod(a, env) && NoNegatedMod(b, env)
    case _ => true
  }

  lemma {:induction false} ComparesValue(e: Expr, env: Env)
    requires Logical(e) && NoNegatedMod(e, env)
    ensures Lifted(e, env) == if Eval(e, env) == NO then NO else YES
  {
    match e
    case And(a, b) => ComparesValue(a, env); ComparesValue(b, env);
    case Or(a, b) => ComparesValue(a, env); ComparesValue(b, env);
    case Not(a) => ComparesValue(a, env);
    case _ =>
  }
}
