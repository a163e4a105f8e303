/** What expr_eq answers: at every level of && and || operand order and parentheses do not matter, repetitions do. */
module KconfigEqExact {
  import opened KconfigExpr
  import opened KconfigEq

  /** A tree up to the order and grouping of the operands at every level. */
  datatype Form =
    | SymForm(sym: Sym)
    | CompForm(op: CmpOp, lhs: Sym, rhs: Sym)
    | NotForm(arg: Form)
    | LevelForm(kind: Kind, operands: multiset<Form>)

  function FormOf(e: Expr): Form
    decreases Size(e), 1
  {
    match e
    case Symbol(s) => SymForm(s)
    case Comp(op, l, r) => CompForm(op, l, r)
    case Not(a) => NotForm(FormOf(a))
    case And(_, _) => LevelForm(KAnd, Operands(KAnd, e.left) + Operands(KAnd, e.right))
    case Or(_, _) => LevelForm(KOr, Operands(KOr, e.left) + Operands(KOr, e.right))
  }

  /** The operands of a level, without the units a walk leaves behind. */
  function Operands(k: Kind, e: Expr): multiset<Form>
    decreases Size(e), 2
  {
    if k.Is(e) then Operands(k, e.left) + Operands(k, e.right)
    else if e == k.Unit() then multiset{}
    else multiset{FormOf(e)}
  }

  /** No connective has y or n as an operand. */
  predicate Clean(e: Expr)
  {
    match e
    case Not(a) => Clean(a)
    case And(a, b) => Clean(a) && Clean(b) && !IsUnitConst(a) && !IsUnitConst(b)
    case Or(a, b) => Clean(a) && Clean(b) && !IsUnitConst(a) && !IsUnitConst(b)
    case _ => true
  }

  /** A level in the course of a walk: clean operands, and units. */
  predicate Level(k: Kind, e: Expr)
  {
    if k.Is(e) then Level(k, e.left) && Level(k, e.right) else e == k.Unit() || (Clean(e) && !IsUnitConst(e))
  }

  lemma {:induction false} CleanLevel(k: Kind, e: Expr)
    requires Clean(e) && !IsUnitConst(e)
    ensures Level(k, e)
  {
    if k.Is(e) {
      CleanLevel(k, e.left);
      CleanLevel(k, e.right);
    }
  }

  /** `p` is what is left of `e1` and `e2` once their common operands are gone from both. */
  ghost predicate Cancelled(k: Kind, e1: Expr, e2: Expr, p: (Expr, Expr))
  {
    && Level(k, p.0) && Level(k, p.1)
    && Operands(k, p.0) == Operands(k, e1) - Operands(k, e2)
    && Operands(k, p.1) == Operands(k, e2) - Operands(k, e1)
  }

  /** The walk takes the common operands, with their multiplicities, out of both sides. */
  lemma {:induction false} WalkExact(k: Kind, e1: Expr, e2: Expr)
    requires Level(k, e1) && Level(k, e2)
    ensures Cancelled(k, e1, e2, EliminateEqWalk(k, e1, e2))
    decreases Size(e1) + Size(e2), if k.Is(e1) || k.Is(e2) then 1 else 3
  {
    if k.Is(e1) {
      WalkExactLeft(k, e1.left, e1.right, e2);
    } else if k.Is(e2) {
      WalkExactRight(k, e1, e2.left, e2.right);
    } else {
      if !IsUnitConst(e1) && !IsUnitConst(e2) { EqExact(e1, e2); }
      CancelLeaves(k, e1, e2);
    }
  }

  lemma {:induction false} WalkExactLeft(k: Kind, a: Expr, b: Expr, c: Expr)
    requires Level(k, a) && Level(k, b) && Level(k, c)
    ensures Cancelled(k, k.Node(a, b), c, EliminateEqWalk(k, k.Node(a, b), c))
    decreases Size(a) + Size(b) + Size(c) + 1, 0
  {
    hide Cancelled, Level;
    var p := EliminateEqWalk(k, a, c);
    WalkExact(k, a, c);
    LeavesLevels(k, a, c, p);
    WalkExact(k, b, p.1);
    CancelNode(k, a, b, c, p, EliminateEqWalk(k, b, p.1));
  }

  lemma LeavesLevels(k: Kind, e1: Expr, e2: Expr, p: (Expr, Expr))
    requires Cancelled(k, e1, e2, p)
    ensures Level(k, p.0) && Level(k, p.1)
  {
  }

  lemma {:induction false} WalkExactRight(k: Kind, c: Expr, a: Expr, b: Expr)
    requires Level(k, a) && Level(k, b) && Level(k, c) && !k.Is(c)
    ensures Cancelled(k, c, k.Node(a, b), EliminateEqWalk(k, c, k.Node(a, b)))
    decreases Size(a) + Size(b) + Size(c) + 1, 0
  {
    hide Cancelled, Level;
    var p := EliminateEqWalk(k, c, a);
    WalkExact(k, c, a);
    LeavesLevels(k, c, a, p);
    WalkExact(k, p.0, b);
    var q := EliminateEqWalk(k, p.0, b);
    CancelSwap(k, c, a, p);
    CancelSwap(k, p.0, b, q);
    CancelNode(k, a, b, c, (p.1, p.0), (q.1, q.0));
    CancelSwap(k, k.Node(a, b), c, (k.Node(p.1, q.1), q.0));
    assert EliminateEqWalk(k, c, k.Node(a, b)) == (q.0, k.Node(p.1, q.1));
  }

  lemma CancelSwap(k: Kind, e1: Expr, e2: Expr, p: (Expr, Expr))
    requires Cancelled(k, e1, e2, p)
    ensures Cancelled(k, e2, e1, (p.1, p.0))
  {
  }

  lemma CancelLeaves(k: Kind, e1: Expr, e2: Expr)
    requires Level(k, e1) && Level(k, e2) && !k.Is(e1) && !k.Is(e2)
    requires !IsUnitConst(e1) && !IsUnitConst(e2) ==> (Eq(e1, e2) <==> FormOf(e1) == FormOf(e2))
    ensures Cancelled(k, e1, e2, EliminateEqWalk(k, e1, e2))
  {
    if e1 == k.Unit() || e2 == k.Unit() {
      assert EliminateEqWalk(k, e1, e2) == (e1, e2);
      CancelDifferent(k, e1, e2);
    } else if FormOf(e1) == FormOf(e2) {
      assert EliminateEqWalk(k, e1, e2) == (k.Unit(), k.Unit());
      assert Operands(k, e1) - Operands(k, e2) == multiset{};
    } else {
      assert EliminateEqWalk(k, e1, e2) == (e1, e2);
      CancelDifferent(k, e1, e2);
    }
  }

  lemma CancelDifferent(k: Kind, e1: Expr, e2: Expr)
    requires Level(k, e1) && Level(k, e2) && !k.Is(e1) && !k.Is(e2)
    requires e1 == k.Unit() || e2 == k.Unit() || FormOf(e1) != FormOf(e2)
    ensures Cancelled(k, e1, e2, (e1, e2))
  {
    assert Operands(k, e1) - Operands(k, e2) == Operands(k, e1);
    assert Operands(k, e2) - Operands(k, e1) == Operands(k, e2);
  }

  /** Cancelling one operand tree after the other cancels their conjunction or disjunction. */
  lemma CancelNode(k: Kind, a: Expr, b: Expr, c: Expr, p: (Expr, Expr), q: (Expr, Expr))
    requires Cancelled(k, a, c, p) && Cancelled(k, b, p.1, q)
    ensures Cancelled(k, k.Node(a, b), c, (k.Node(p.0, q.0), q.1))
  {
    MonusSplits(Operands(k, a), Operands(k, b), Operands(k, c));
    assert Operands(k, k.Node(a, b)) == Operands(k, a) + Operands(k, b);
    assert Operands(k, k.Node(p.0, q.0)) == Operands(k, p.0) + Operands(k, q.0);
  }

  lemma MonusSplits(a: multiset<Form>, b: multiset<Form>, c: multiset<Form>)
    ensures (a - c) + (b - (c - a)) == (a + b) - c
    ensures (c - a) - b == c - (a + b)
  {
  }

  lemma {:induction false} CleanYn(e: Expr)
    requires Clean(e)
    ensures EliminateYn(e) == e
  {
    match e
    case And(a, b) => CleanYn(a); CleanYn(b);
    case Or(a, b) => CleanYn(a); CleanYn(b);
    case _ =>
  }

  /** expr_eliminate_yn then leaves exactly the remaining operands, or the unit. */
  lemma {:induction false} YnExact(k: Kind, e: Expr)
    requires Level(k, e)
    ensures var r := EliminateYn(e);
            && Level(k, r)
            && Operands(k, r) == Operands(k, e)
            && (Operands(k, e) == multiset{} <==> r == k.Unit())
  {
    hide Level, Operands, EliminateYn, YnAnd, YnOr;
    LevelParts(k, e);
    if k.Is(e) {
      YnExact(k, e.left);
      YnExact(k, e.right);
      YnJoin(k, EliminateYn(e.left), EliminateYn(e.right));
    } else if e != k.Unit() {
      CleanYn(e);
    }
  }

  lemma LevelParts(k: Kind, e: Expr)
    requires Level(k, e)
    ensures if k.Is(e) then
              var l, r := EliminateYn(e.left), EliminateYn(e.right);
              && Level(k, e.left) && Level(k, e.right) && Operands(k, e) == Operands(k, e.left) + Operands(k, e.right)
              && EliminateYn(e) == if k.KAnd? then YnAnd(l, r) else YnOr(l, r)
            else if e == k.Unit() then Operands(k, e) == multiset{} && EliminateYn(e) == e
            else Clean(e) && Operands(k, e) == multiset{FormOf(e)}
  {
  }

  lemma YnJoin(k: Kind, a: Expr, b: Expr)
    requires Level(k, a) && Level(k, b)
    requires (Operands(k, a) == multiset{} <==> a == k.Unit()) && (Operands(k, b) == multiset{} <==> b == k.Unit())
    ensures var r := if k.KAnd? then YnAnd(a, b) else YnOr(a, b);
            && Level(k, r) && Operands(k, r) == Operands(k, a) + Operands(k, b)
            && (Operands(k, r) == multiset{} <==> r == k.Unit())
  {
    NotAbsorbing(k, a);
    NotAbsorbing(k, b);
    if a != k.Unit() && b != k.Unit() {
      assert Operands(k, k.Node(a, b)) == Operands(k, a) + Operands(k, b);
    }
  }

  lemma NotAbsorbing(k: Kind, e: Expr)
    requires Level(k, e)
    ensures IsUnitConst(e) ==> e == k.Unit()
  {
  }

  /** expr_eq decides whether two trees are equal up to reordering and regrouping at every level. */
  lemma {:induction false} EqExact(e1: Expr, e2: Expr)
    requires Clean(e1) && Clean(e2)
    ensures Eq(e1, e2) <==> FormOf(e1) == FormOf(e2)
    decreases Size(e1) + Size(e2), 2
  {
    match (e1, e2)
    case (Not(a), Not(b)) => EqExact(a, b);
    case (And(_, _), And(_, _)) =>
      CleanLevel(KAnd, e1);
      CleanLevel(KAnd, e2);
      WalkExact(KAnd, e1, e2);
      LevelExact(KAnd, e1, e2);
    case (Or(_, _), Or(_, _)) =>
      CleanLevel(KOr, e1);
      CleanLevel(KOr, e2);
      WalkExact(KOr, e1, e2);
      LevelExact(KOr, e1, e2);
    case _ =>
  }

  lemma LevelExact(k: Kind, e1: Expr, e2: Expr)
    requires k.Is(e1) && k.Is(e2) && Cancelled(k, e1, e2, EliminateEqWalk(k, e1, e2))
    ensures Eq(e1, e2) <==> Operands(k, e1) == Operands(k, e2)
  {
    var p := EliminateEqWalk(k, e1, e2);
    YnExact(k, p.0);
    YnExact(k, p.1);
    var r0, r1 := EliminateYn(p.0), EliminateYn(p.1);
    assert EliminateEq(e1, e2) == (r0, r1) by { assert KindOf(e1) == k; }
    var a, b := Operands(k, e1), Operands(k, e2);
    NothingCommon(a, b);
    SameMultiset(a, b);
  }

  lemma NothingCommon(a: multiset<Form>, b: multiset<Form>)
    ensures forall x :: a - b != multiset{x} || b - a != multiset{x}
  {
    forall x | a - b == multiset{x} ensures b - a != multiset{x} {
      assert (a - b)[x] == 1;
      assert multiset{x}[x] == 1;
    }
  }

  lemma SameMultiset(a: multiset<Form>, b: multiset<Form>)
    ensures a - b == multiset{} && b - a == multiset{} <==> a == b
  {
    if a - b == multiset{} && b - a == multiset{} {
      assert forall x :: (a - b)[x] == 0 && (b - a)[x] == 0;
      assert a == b;
    }
  }

  /** What expr_eliminate_eq leaves of two trees of one connective: the operands the other does not have. */
  lemma EliminateEqLevel(k: Kind, e1: Expr, e2: Expr)
    requires Clean(e1) && Clean(e2) && k.Is(e1) && k.Is(e2)
    ensures var r := EliminateEq(e1, e2);
            && Operands(k, r.0) == Operands(k, e1) - Operands(k, e2)
            && Operands(k, r.1) == Operands(k, e2) - Operands(k, e1)
  {
    CleanLevel(k, e1);
    CleanLevel(k, e2);
    WalkExact(k, e1, e2);
    var p := EliminateEqWalk(k, e1, e2);
    YnExact(k, p.0);
    YnExact(k, p.1);
    assert KindOf(e1) == k;
  }

  /** Of a tree and something that is no tree of that connective: it disappears from the operands, and is then gone. */
  lemma EliminateEqOperand(k: Kind, e1: Expr, e2: Expr)
    requires Clean(e1) && Clean(e2) && !IsUnitConst(e1) && !k.Is(e1) && k.Is(e2) && !KindOfOther(k).Is(e1)
    ensures var r := EliminateEq(e1, e2);
            && Operands(k, r.0) == Operands(k, e1) - Operands(k, e2)
            && Operands(k, r.1) == Operands(k, e2) - Operands(k, e1)
  {
    CleanLevel(k, e1);
    CleanLevel(k, e2);
    WalkExact(k, e1, e2);
    var p := EliminateEqWalk(k, e1, e2);
    YnExact(k, p.0);
    YnExact(k, p.1);
    assert KindOf(e2) == k;
  }

  function KindOfOther(k: Kind): Kind { if k.KAnd? then KOr else KAnd }

  /** Of trees of different connectives: one is an operand of the other and is cancelled there, or they stay. */
  lemma EliminateEqMixed(k: Kind, e1: Expr, e2: Expr)
    requires Clean(e1) && Clean(e2) && k.Is(e1) && KindOfOther(k).Is(e2)
    ensures var r, o := EliminateEq(e1, e2), KindOfOther(k);
            if FormOf(e2) in Operands(k, e1) then
              r.1 == k.Unit() && Operands(k, r.0) == Operands(k, e1) - multiset{FormOf(e2)}
            else Operands(o, r.1) == Operands(o, e2) - multiset{FormOf(e1)}
  {
    if FormOf(e2) in Operands(k, e1) { MixedCancelled(k, e1, e2); } else { MixedKept(k, e1, e2); }
  }

  lemma MixedCancelled(k: Kind, e1: Expr, e2: Expr)
    requires Clean(e1) && Clean(e2) && k.Is(e1) && KindOfOther(k).Is(e2) && FormOf(e2) in Operands(k, e1)
    ensures var r := EliminateEq(e1, e2);
            r.1 == k.Unit() && Operands(k, r.0) == Operands(k, e1) - multiset{FormOf(e2)}
  {
    hide EliminateEqWalk, Clean, FormOf;
    var p := EliminateEqWalk(k, e1, e2);
    assert KindOf(e1) == k;
    CleanLevel(k, e1);
    CleanLevel(k, e2);
    WalkExact(k, e1, e2);
    YnExact(k, p.0);
    assert Operands(k, e2) == multiset{FormOf(e2)};
    assert multiset{FormOf(e2)} - Operands(k, e1) == multiset{};
    MixedGone(k, e1, e2);
  }

  lemma MixedKept(k: Kind, e1: Expr, e2: Expr)
    requires Clean(e1) && Clean(e2) && k.Is(e1) && KindOfOther(k).Is(e2) && FormOf(e2) !in Operands(k, e1)
    ensures var r, o := EliminateEq(e1, e2), KindOfOther(k);
            Operands(o, r.1) == Operands(o, e2) - multiset{FormOf(e1)}
  {
    hide EliminateEqWalk, Clean, FormOf;
    var o := KindOfOther(k);
    assert KindOf(e1) == k && KindOf(e2) == o;
    CleanLevel(k, e1);
    CleanLevel(k, e2);
    WalkExact(k, e1, e2);
    assert Operands(k, e2) == multiset{FormOf(e2)};
    assert (multiset{FormOf(e2)} - Operands(k, e1))[FormOf(e2)] == 1;
    MixedStays(k, e1, e2);
    CleanLevel(o, e1);
    CleanLevel(o, e2);
    WalkExact(o, e1, e2);
    YnExact(o, EliminateEqWalk(o, e1, e2).1);
    assert Operands(o, e1) == multiset{FormOf(e1)};
  }

  /** A leaf that lost all its operands is the unit. */
  lemma MixedGone(k: Kind, e1: Expr, e2: Expr)
    requires !k.Is(e2) && Cancelled(k, e1, e2, EliminateEqWalk(k, e1, e2))
    requires Operands(k, EliminateEqWalk(k, e1, e2).1) == multiset{}
    ensures EliminateEqWalk(k, e1, e2).1 == k.Unit()
  {
    var p := EliminateEqWalk(k, e1, e2);
    assert !k.Is(p.1);
  }

  /** One that kept one is untouched. */
  lemma {:induction false} MixedStays(k: Kind, e1: Expr, e2: Expr)
    requires !k.Is(e2) && Operands(k, EliminateEqWalk(k, e1, e2).1) != multiset{}
    ensures EliminateEqWalk(k, e1, e2) == (e1, e2)
    decreases e1
  {
    if k.Is(e1) {
      var p := EliminateEqWalk(k, e1.left, e2);
      if Operands(k, p.1) == multiset{} { UnitWalk(k, e1.right, p.1); }
      MixedStays(k, e1.left, e2);
      MixedStays(k, e1.right, e2);
    }
  }

  lemma {:induction false} UnitWalk(k: Kind, e1: Expr, e2: Expr)
    requires !k.Is(e2) && Operands(k, e2) == multiset{}
    ensures Operands(k, EliminateEqWalk(k, e1, e2).1) == multiset{}
    decreases e1
  {
    if k.Is(e1) {
      UnitWalk(k, e1.left, e2);
      UnitWalk(k, e1.right, EliminateEqWalk(k, e1.left, e2).1);
    }
  }

  /** With y or n as an operand it can answer yes for other trees, whose value the constant decides. */
  lemma EqWithConstant() returns (e1: Expr, e2: Expr)
    ensures FormOf(e1) != FormOf(e2) && Eq(e1, e2)
  {
    var n, a, b := Symbol(No), Symbol(Bool(0)), Symbol(Bool(1));
    e1, e2 := And(n, a), And(n, b);
    assert EliminateEqWalk(KAnd, n, e2) == (n, e2);
    assert EliminateEqWalk(KAnd, a, e2) == (a, e2);
    assert EliminateEq(e1, e2) == (n, n);
    assert FormOf(e1).operands[SymForm(Bool(0))] == 1;
    assert FormOf(e2).operands[SymForm(Bool(0))] == 0;
  }
}
