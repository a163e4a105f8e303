/** Kconfig dependency expressions and their three-valued meaning
    (nemu/tools/kconfig/expr.c, expr.h).

    Trees are values here: a rewrite that the C code performs in place returns the new tree,
    and `NULL`, which reads as `yes`, is `None`. */
module KconfigExpr {

  datatype Option<+T> = None | Some(value: T)

  /** no = 0, mod = 1, yes = 2. */
  type Tri = x: int | 0 <= x <= 2

  const NO: Tri := 0
  const MOD: Tri := 1
  const YES: Tri := 2

  function TriAnd(a: Tri, b: Tri): Tri { if a < b then a else b }

  function TriOr(a: Tri, b: Tri): Tri { if a > b then a else b }

  function TriNot(a: Tri): Tri { 2 - a }

  /** The three constant symbols, symbols of type bool and tristate, symbols of any other type or none, and other
      quoted constants, with the number strtoll reads their text as, if any. */
  datatype Sym =
    | Yes
    | Mod
    | No
    | Bool(id: nat)
    | Tristate(id: nat)
    | Other(id: nat)
    | Text(id: nat, number: Option<int>)
  {
    predicate IsConst() { IsYMN() || Text? }

    predicate IsYMN() { Yes? || Mod? || No? }
  }

  datatype CmpOp = Equal | Unequal | Lth | Leq | Gth | Geq

  datatype Expr =
    | Symbol(sym: Sym)
    | Not(arg: Expr)
    | And(left: Expr, right: Expr)
    | Or(left: Expr, right: Expr)
    | Comp(op: CmpOp, lhs: Sym, rhs: Sym)

  /** An assignment. Bool symbols only take n and y. `cmp` is the sign of the comparison of two symbols of which one is
      of another type, or text that is no number. */
  datatype Env = Env(bools: nat -> bool, tris: nat -> Tri, cmp: (Sym, Sym) -> int)

  function SymVal(s: Sym, env: Env): Tri
  {
    match s
    case Yes => YES
    case Mod => MOD
    case No => NO
    case Bool(id) => if env.bools(id) then YES else NO
    case Tristate(id) => env.tris(id)
    case Other(_) => NO
    case Text(_, _) => NO
  }

  /** Position of the strings "m" < "n" < "y" in strcmp order. */
  function StringRank(v: Tri): int { if v == MOD then 0 else if v == NO then 1 else 2 }

  /** The number expr_parse_string finds in a symbol's value; y, m and n have no type and are no numbers. */
  function Number(s: Sym, env: Env): Option<int>
  {
    match s
    case Bool(_) => Some(SymVal(s, env))
    case Tristate(_) => Some(SymVal(s, env))
    case Text(_, number) => number
    case _ => None
  }

  /** The variable `res` of expr_calc_value: two numbers compare as such, anything else by strcmp. Different texts are
      different strings, and none is "y", "m" or "n", which are the symbols of that name. */
  function CompareResult(l: Sym, r: Sym, env: Env): int
  {
    if l.Other? || r.Other? then env.cmp(l, r)
    else if Number(l, env).Some? && Number(r, env).Some? then Number(l, env).value - Number(r, env).value
    else if l.Text? || r.Text? then
      var c := env.cmp(l, r);
      if l == r then 0 else if c == 0 then 1 else c
    else StringRank(SymVal(l, env)) - StringRank(SymVal(r, env))
  }

  /** A value as sym_get_string_value spells it. */
  function Letter(v: Tri): char { if v == NO then 'n' else if v == MOD then 'm' else 'y' }

  predicate Holds(op: CmpOp, res: int)
  {
    match op
    case Equal => res == 0
    case Unequal => res != 0
    case Lth => res < 0
    case Leq => res <= 0
    case Gth => res > 0
    case Geq => res >= 0
  }

  /** expr_calc_value on a non-NULL tree. */
  function Eval(e: Expr, env: Env): Tri
  {
    match e
    case Symbol(s) => SymVal(s, env)
    case Not(a) => TriNot(Eval(a, env))
    case And(a, b) => TriAnd(Eval(a, env), Eval(b, env))
    case Or(a, b) => TriOr(Eval(a, env), Eval(b, env))
    case Comp(op, l, r) => if Holds(op, CompareResult(l, r, env)) then YES else NO
  }

  /** What the operators mean between two bool or tristate symbols: the order of their values. */
  lemma CompareValues(l: Sym, r: Sym, env: Env)
    requires (l.Bool? || l.Tristate?) && (r.Bool? || r.Tristate?)
    ensures var a, b := SymVal(l, env), SymVal(r, env);
            && (Eval(Comp(Equal, l, r), env) == YES <==> a == b)
            && (Eval(Comp(Unequal, l, r), env) == YES <==> a != b)
            && (Eval(Comp(Lth, l, r), env) == YES <==> a < b)
            && (Eval(Comp(Leq, l, r), env) == YES <==> a <= b)
            && (Eval(Comp(Gth, l, r), env) == YES <==> a > b)
            && (Eval(Comp(Geq, l, r), env) == YES <==> a >= b)
  {
  }

  /** And with y, m and n: the alphabetical order of the letters. */
  lemma CompareLetters(l: Sym, r: Sym, env: Env)
    requires (l.Bool? || l.Tristate? || l.IsYMN()) && r.IsYMN()
    ensures var a, b := Letter(SymVal(l, env)), Letter(SymVal(r, env));
            && (Eval(Comp(Equal, l, r), env) == YES <==> a == b)
            && (Eval(Comp(Unequal, l, r), env) == YES <==> a != b)
            && (Eval(Comp(Lth, l, r), env) == YES <==> a < b)
            && (Eval(Comp(Leq, l, r), env) == YES <==> a <= b)
            && (Eval(Comp(Gth, l, r), env) == YES <==> a > b)
            && (Eval(Comp(Geq, l, r), env) == YES <==> a >= b)
  {
  }

  /** expr_calc_value: a missing expression is `yes`. */
  function EvalOpt(e: Option<Expr>, env: Env): Tri
  {
    if e.None? then YES else Eval(e.value, env)
  }

  /** The symbols of a tree. */
  function ExprSyms(e: Expr): set<Sym>
  {
    match e
    case Symbol(s) => {s}
    case Not(a) => ExprSyms(a)
    case And(a, b) => ExprSyms(a) + ExprSyms(b)
    case Or(a, b) => ExprSyms(a) + ExprSyms(b)
    case Comp(_, l, r) => {l, r}
  }

  /** Text that says n, m or y by its number. */
  predicate NamesValue(s: Sym) { s.Text? && s.number.Some? && NO <= s.number.value <= YES }

  /** The expressions every step of the rewriter is right on: no tristate symbol is tested for equality with text that
      is the number 0, 1 or 2. */
  predicate Scoped(e: Expr)
  {
    match e
    case Symbol(_) => true
    case Not(a) => Scoped(a)
    case And(a, b) => Scoped(a) && Scoped(b)
    case Or(a, b) => Scoped(a) && Scoped(b)
    case Comp(op, l, r) => l.Tristate? && (op.Equal? || op.Unequal?) ==> !NamesValue(r)
  }

  /** Negation-normal form as expr_transform leaves it: NOT stands only directly above a symbol other than
      y/m/n, and no bool symbol is tested against y/m/n with = or !=. */
  predicate Normal(e: Expr)
  {
    match e
    case Symbol(_) => true
    case Not(a) => a.Symbol? && !a.sym.IsYMN()
    case And(a, b) => Normal(a) && Normal(b)
    case Or(a, b) => Normal(a) && Normal(b)
    case Comp(op, l, r) => (op.Equal? || op.Unequal?) && l.Bool? ==> !r.IsYMN()
  }

  /** Number of nodes. */
  function Size(e: Expr): (n: nat)
    ensures n >= 1
  {
    match e
    case Symbol(_) => 1
    case Not(a) => 1 + Size(a)
    case And(a, b) => 1 + Size(a) + Size(b)
    case Or(a, b) => 1 + Size(a) + Size(b)
    case Comp(_, _, _) => 1
  }

  /** Number of AND and OR nodes outside negations. */
  function Ops(e: Expr): nat
  {
    match e
    case And(a, b) => 1 + Ops(a) + Ops(b)
    case Or(a, b) => 1 + Ops(a) + Ops(b)
    case _ => 0
  }

  /** The connective a walk is about: E_AND or E_OR. */
  datatype Kind = KAnd | KOr
  {
    predicate Is(e: Expr) { if KAnd? then e.And? else e.Or? }

    function Node(a: Expr, b: Expr): Expr { if KAnd? then And(a, b) else Or(a, b) }

    /** The constant a removed operand is replaced with: y for AND, n for OR. */
    function Unit(): Expr { if KAnd? then Symbol(Yes) else Symbol(No) }

    function Op(a: Tri, b: Tri): Tri { if KAnd? then TriAnd(a, b) else TriOr(a, b) }
  }

  function KindOf(e: Expr): (k: Kind)
    requires e.And? || e.Or?
    ensures k.Is(e)
  {
    if e.And? then KAnd else KOr
  }

  predicate IsUnitConst(e: Expr) { e == Symbol(Yes) || e == Symbol(No) }

  /** The case E_AND of expr_eliminate_yn, once both operands are done. */
  function YnAnd(l: Expr, r: Expr): Expr
  {
    if l == Symbol(No) then Symbol(No)
    else if l == Symbol(Yes) then r
    else if r == Symbol(No) then Symbol(No)
    else if r == Symbol(Yes) then l
    else And(l, r)
  }

  /** The case E_OR of expr_eliminate_yn, once both operands are done. */
  function YnOr(l: Expr, r: Expr): Expr
  {
    if l == Symbol(No) then r
    else if l == Symbol(Yes) then Symbol(Yes)
    else if r == Symbol(No) then l
    else if r == Symbol(Yes) then Symbol(Yes)
    else Or(l, r)
  }

  /** expr_eliminate_yn. */
  function EliminateYn(e: Expr): Expr
  {
    match e
    case And(a, b) => YnAnd(EliminateYn(a), EliminateYn(b))
    case Or(a, b) => YnOr(EliminateYn(a), EliminateYn(b))
    case _ => e
  }

  /** Some AND/OR node, outside negations, has y or n as an operand. */
  predicate HasConstOperand(e: Expr)
  {
    match e
    case And(a, b) => IsUnitConst(a) || IsUnitConst(b) || HasConstOperand(a) || HasConstOperand(b)
    case Or(a, b) => IsUnitConst(a) || IsUnitConst(b) || HasConstOperand(a) || HasConstOperand(b)
    case _ => false
  }

  /** expr_eliminate_yn keeps the value under every assignment. */
  lemma {:induction false} EliminateYnValue(e: Expr, env: Env)
    ensures Eval(EliminateYn(e), env) == Eval(e, env)
  {
    match e
    case And(a, b) =>
      EliminateYnValue(a, env);
      EliminateYnValue(b, env);
    case Or(a, b) =>
      EliminateYnValue(a, env);
      EliminateYnValue(b, env);
    case _ =>
  }

  /** expr_eliminate_yn leaves no y/n operand behind, never adds a connective, and removes one whenever
      there was such an operand. */
  lemma {:induction false} EliminateYnShrinks(e: Expr)
    ensures !HasConstOperand(EliminateYn(e))
    ensures Ops(EliminateYn(e)) <= Ops(e)
    ensures HasConstOperand(e) ==> Ops(EliminateYn(e)) < Ops(e)
    ensures Size(EliminateYn(e)) <= Size(e)
  {
    match e
    case And(a, b) =>
      EliminateYnShrinks(a);
      EliminateYnShrinks(b);
      YnAndShrinks(EliminateYn(a), EliminateYn(b));
      YnUnit(a);
      YnUnit(b);
      hide YnAnd;
    case Or(a, b) =>
      EliminateYnShrinks(a);
      EliminateYnShrinks(b);
      YnOrShrinks(EliminateYn(a), EliminateYn(b));
      YnUnit(a);
      YnUnit(b);
      hide YnOr;
    case _ =>
  }

  lemma YnUnit(e: Expr)
    ensures IsUnitConst(e) ==> EliminateYn(e) == e
  {
  }

  lemma YnAndShrinks(a: Expr, b: Expr)
    requires !HasConstOperand(a) && !HasConstOperand(b)
    ensures !HasConstOperand(YnAnd(a, b)) && Ops(YnAnd(a, b)) <= 1 + Ops(a) + Ops(b)
    ensures IsUnitConst(a) || IsUnitConst(b) ==> Ops(YnAnd(a, b)) < 1 + Ops(a) + Ops(b)
    ensures Size(YnAnd(a, b)) <= 1 + Size(a) + Size(b)
  {
  }

  lemma YnOrShrinks(a: Expr, b: Expr)
    requires !HasConstOperand(a) && !HasConstOperand(b)
    ensures !HasConstOperand(YnOr(a, b)) && Ops(YnOr(a, b)) <= 1 + Ops(a) + Ops(b)
    ensures IsUnitConst(a) || IsUnitConst(b) ==> Ops(YnOr(a, b)) < 1 + Ops(a) + Ops(b)
    ensures Size(YnOr(a, b)) <= 1 + Size(a) + Size(b)
  {
  }

  lemma {:induction false} EliminateYnForm(e: Expr)
    ensures Normal(e) ==> Normal(EliminateYn(e))
    ensures Scoped(e) ==> Scoped(EliminateYn(e))
  {
    match e
    case And(a, b) =>
      EliminateYnForm(a);
      EliminateYnForm(b);
    case Or(a, b) =>
      EliminateYnForm(a);
      EliminateYnForm(b);
    case _ =>
  }
}
