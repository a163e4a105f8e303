/** How menus use the rewriter: propagation of dependencies to children and properties, automatic submenus
    (menu_finalize and rewrite_m in nemu/tools/kconfig/menu.c), and the visibility computed from the result
    (sym_calc_visibility in nemu/tools/kconfig/symbol.c). */
module KconfigMenu {
  import opened KconfigExpr
  import opened KconfigEq
  import opened KconfigDups
  import opened KconfigTransform

  // ----- the dependency pipeline -----

  /** rewrite_m: 'm' -> 'm' && MODULES. */
  function RewriteM(e: Expr, modules: Sym): Expr
  {
    match e
    case Not(a) => Not(RewriteM(a, modules))
    case And(a, b) => And(RewriteM(a, modules), RewriteM(b, modules))
    case Or(a, b) => Or(RewriteM(a, modules), RewriteM(b, modules))
    case Symbol(s) => if s.Mod? then And(e, Symbol(modules)) else e
    case Comp(_, _, _) => e
  }

  /** The tree in which a written 'm' reads as 'n'. */
  function ModAsNo(e: Expr): Expr
  {
    match e
    case Not(a) => Not(ModAsNo(a))
    case And(a, b) => And(ModAsNo(a), ModAsNo(b))
    case Or(a, b) => Or(ModAsNo(a), ModAsNo(b))
    case Symbol(s) => if s.Mod? then Symbol(No) else e
    case Comp(_, _, _) => e
  }

  /** rewrite_m changes nothing while modules are enabled, and turns each written 'm' into 'n' otherwise. */
  lemma {:induction false} RewriteMValue(e: Expr, modules: Sym, env: Env)
    ensures Eval(RewriteM(e, modules), env) == Eval(if SymVal(modules, env) == NO then ModAsNo(e) else e, env)
    ensures Scoped(e) ==> Scoped(RewriteM(e, modules))
  {
    match e
    case Not(a) => RewriteMValue(a, modules, env);
    case And(a, b) => RewriteMValue(a, modules, env); RewriteMValue(b, modules, env);
    case Or(a, b) => RewriteMValue(a, modules, env); RewriteMValue(b, modules, env);
    case _ =>
  }

  /** expr_alloc_and. */
  function AllocAnd(e1: Option<Expr>, e2: Option<Expr>): Option<Expr>
  {
    if e1.None? then e2 else if e2.None? then e1 else Some(And(e1.value, e2.value))
  }

  ghost predicate ScopedOpt(e: Option<Expr>) { e.Some? ==> Scoped(e.value) }

  ghost predicate NormalOpt(e: Option<Expr>) { e.Some? ==> Normal(e.value) }

  /** The four steps menu_finalize applies to a child's dependency and to each property condition:
      rewrite_m, expr_transform, conjunction with what encloses it, expr_eliminate_dups. */
  function Propagate(enclosing: Option<Expr>, own: Option<Expr>, modules: Sym): Option<Expr>
  {
    var t := if own.None? then None else Some(Transform(RewriteM(own.value, modules)));
    var c := AllocAnd(enclosing, t);
    if c.None? then None else Some(EliminatedDups(c.value))
  }

  /** The value of a dependency as written, once 'm' has been made to depend on MODULES. */
  ghost function Written(own: Option<Expr>, modules: Sym, env: Env): Tri
  {
    if own.None? then YES
    else Eval(if SymVal(modules, env) == NO then ModAsNo(own.value) else own.value, env)
  }

  /** The pipeline computes the conjunction, in normal form and without redundant operands. */
  lemma PropagateSound(enclosing: Option<Expr>, own: Option<Expr>, modules: Sym, env: Env)
    requires ScopedOpt(enclosing) && ScopedOpt(own) && NormalOpt(enclosing)
    ensures EvalOpt(Propagate(enclosing, own, modules), env)
         == TriAnd(EvalOpt(enclosing, env), Written(own, modules, env))
    ensures NormalOpt(Propagate(enclosing, own, modules)) && ScopedOpt(Propagate(enclosing, own, modules))
    ensures Propagate(enclosing, own, modules).None? || Irredundant(Propagate(enclosing, own, modules).value)
  {
    if own.Some? {
      var m := RewriteM(own.value, modules);
      RewriteMValue(own.value, modules, env);
      TransformValue(m, env);
      TransformNormal(m);
    }
    var t := if own.None? then None else Some(Transform(RewriteM(own.value, modules)));
    var c := AllocAnd(enclosing, t);
    if c.Some? {
      EliminatedDupsSound(c.value, env);
    }
  }

  /** The dependency of the innermost of a chain of nested menus, outermost first. */
  function Nested(enclosing: Option<Expr>, chain: seq<Option<Expr>>, modules: Sym): Option<Expr>
    decreases |chain|
  {
    if chain == [] then enclosing
    else Nested(Propagate(enclosing, chain[0], modules), chain[1..], modules)
  }

  ghost function AllWritten(chain: seq<Option<Expr>>, modules: Sym, env: Env): Tri
  {
    if chain == [] then YES else TriAnd(Written(chain[0], modules, env), AllWritten(chain[1..], modules, env))
  }

  /** At any depth, the simplified dependency of a menu entry is the minimum of all dependencies written
      around it, in normal form. */
  lemma {:induction false} NestedSound(enclosing: Option<Expr>, chain: seq<Option<Expr>>, modules: Sym, env: Env)
    requires ScopedOpt(enclosing) && NormalOpt(enclosing)
    requires forall i :: 0 <= i < |chain| ==> ScopedOpt(chain[i])
    ensures EvalOpt(Nested(enclosing, chain, modules), env)
         == TriAnd(EvalOpt(enclosing, env), AllWritten(chain, modules, env))
    ensures NormalOpt(Nested(enclosing, chain, modules)) && ScopedOpt(Nested(enclosing, chain, modules))
    decreases |chain|
  {
    if chain != [] {
      PropagateSound(enclosing, chain[0], modules, env);
      NestedSound(Propagate(enclosing, chain[0], modules), chain[1..], modules, env);
    }
  }

  // ----- visibility -----

  /** The value sym_calc_visibility gives a symbol outside choices: the best of its prompts, with `mod` promoted
      to `yes` unless the symbol is tristate and modules are enabled. */
  function Promote(best: Tri, tristate: bool, modules: Tri): Tri
  {
    if best == MOD && (!tristate || modules == NO) then YES else best
  }

  /** The largest prompt value, or `no` without prompts. */
  function Best(prompts: seq<Option<Expr>>, env: Env): (best: Tri)
    ensures forall i :: 0 <= i < |prompts| ==> EvalOpt(prompts[i], env) <= best
    ensures best == NO || exists i :: 0 <= i < |prompts| && EvalOpt(prompts[i], env) == best
  {
    if prompts == [] then NO
    else
      var n := |prompts| - 1;
      assert forall i :: 0 <= i < n ==> prompts[i] == prompts[..n][i];
      TriOr(Best(prompts[..n], env), EvalOpt(prompts[n], env))
  }

  /** The first loop of sym_calc_visibility. */
  method CalcVisibility(prompts: seq<Option<Expr>>, tristate: bool, modules: Tri, env: Env) returns (visible: Tri)
    ensures visible == Promote(Best(prompts, env), tristate, modules)
    ensures visible == NO <==> forall i :: 0 <= i < |prompts| ==> EvalOpt(prompts[i], env) == NO
    ensures visible == MOD <==> tristate && modules != NO && Best(prompts, env) == MOD
  {
    var tri: Tri := NO;
    for i := 0 to |prompts|
      invariant tri == Best(prompts[..i], env)
    {
      assert prompts[..i + 1][..i] == prompts[..i];
      tri := TriOr(tri, EvalOpt(prompts[i], env));
    }
    assert prompts[..|prompts|] == prompts;
    visible := if tri == MOD && (!tristate || modules == NO) then YES else tri;
  }

  function TransBoolOpt(e: Option<Expr>): Option<Expr>
  {
    if e.None? then None else Some(TransBool(e.value))
  }

  /** For a symbol that is not tristate, prompts in normal form give the same visibility whether or not
      expr_trans_bool was applied to them. */
  lemma TransBoolKeepsVisibility(before: seq<Option<Expr>>, after: seq<Option<Expr>>, modules: Tri, env: Env)
    requires |before| == |after|
    requires forall i :: 0 <= i < |before| ==> NormalOpt(before[i]) && after[i] == TransBoolOpt(before[i])
    ensures Promote(Best(before, env), false, modules) == Promote(Best(after, env), false, modules)
  {
    hide Best;
    forall i | 0 <= i < |before| ensures EvalOpt(after[i], env) == NO <==> EvalOpt(before[i], env) == NO {
      if before[i].Some? { TransBoolKeepsNo(before[i].value, env); }
    }
    BestBounds(before, env);
    BestBounds(after, env);
  }

  lemma BestBounds(prompts: seq<Option<Expr>>, env: Env)
    ensures forall i :: 0 <= i < |prompts| ==> EvalOpt(prompts[i], env) <= Best(prompts, env)
    ensures Best(prompts, env) == NO || exists i :: 0 <= i < |prompts| && EvalOpt(prompts[i], env) == Best(prompts, env)
  {
  }

  /** A prompt as written: the dependencies of the menus around it, outermost first, and its own condition. */
  datatype Prompt = Prompt(chain: seq<Option<Expr>>, own: Option<Expr>)
  {
    ghost predicate Ok() { ScopedOpt(own) && forall i :: 0 <= i < |chain| ==> ScopedOpt(chain[i]) }

    /** The condition menu_finalize stores, before expr_trans_bool. */
    function Condition(modules: Sym): Option<Expr> { Propagate(Nested(None, chain, modules), own, modules) }

    ghost function Value(modules: Sym, env: Env): Tri
    {
      TriAnd(AllWritten(chain, modules, env), Written(own, modules, env))
    }
  }

  lemma ConditionSound(p: Prompt, modules: Sym, env: Env)
    requires p.Ok()
    ensures EvalOpt(p.Condition(modules), env) == p.Value(modules, env) && NormalOpt(p.Condition(modules))
  {
    NestedSound(None, p.chain, modules, env);
    PropagateSound(Nested(None, p.chain, modules), p.own, modules, env);
  }

  /** From the prompts as written to the visibility of a symbol that is not tristate: with expr_trans_bool or without,
      it is `yes` exactly if some prompt's dependencies, taken together, are not `no`, and otherwise `no`. */
  lemma PipelineVisibility(ps: seq<Prompt>, modules: Sym, env: Env)
    requires forall i :: 0 <= i < |ps| ==> ps[i].Ok()
    ensures var plain := seq(|ps|, i requires 0 <= i < |ps| => ps[i].Condition(modules));
            var bools := seq(|ps|, i requires 0 <= i < |ps| => TransBoolOpt(ps[i].Condition(modules)));
            var m := SymVal(modules, env);
            && Promote(Best(bools, env), false, m) == Promote(Best(plain, env), false, m)
            && Promote(Best(bools, env), false, m)
               == if exists i :: 0 <= i < |ps| && ps[i].Value(modules, env) != NO then YES else NO
  {
    hide Best;
    var plain := seq(|ps|, i requires 0 <= i < |ps| => ps[i].Condition(modules));
    var bools := seq(|ps|, i requires 0 <= i < |ps| => TransBoolOpt(ps[i].Condition(modules)));
    forall i | 0 <= i < |ps| ensures EvalOpt(plain[i], env) == ps[i].Value(modules, env) && NormalOpt(plain[i]) {
      ConditionSound(ps[i], modules, env);
    }
    TransBoolKeepsVisibility(plain, bools, SymVal(modules, env), env);
    BestBounds(plain, env);
  }

  // ----- automatic submenus -----

  /** expr_contains_symbol. */
  predicate ContainsSymbol(e: Expr, s: Sym)
  {
    match e
    case And(a, b) => ContainsSymbol(a, s) || ContainsSymbol(b, s)
    case Or(a, b) => ContainsSymbol(a, s) || ContainsSymbol(b, s)
    case Not(a) => ContainsSymbol(a, s)
    case Symbol(t) => t == s
    case Comp(_, l, r) => l == s || r == s
  }

  /** expr_depends_symbol. */
  predicate DependsSymbol(e: Expr, s: Sym)
  {
    match e
    case And(a, b) => DependsSymbol(a, s) || DependsSymbol(b, s)
    case Symbol(t) => t == s
    case Comp(Equal, l, r) => l == s && (r.Yes? || r.Mod?)
    case Comp(Unequal, l, r) => l == s && r.No?
    case _ => false
  }

  /** It is true exactly of the symbols that occur. */
  lemma {:induction false} ContainsExact(e: Expr, s: Sym)
    ensures ContainsSymbol(e, s) <==> s in ExprSyms(e)
  {
    match e
    case And(a, b) => ContainsExact(a, s); ContainsExact(b, s);
    case Or(a, b) => ContainsExact(a, s); ContainsExact(b, s);
    case Not(a) => ContainsExact(a, s);
    case _ =>
  }

  /** One of the four ways to say that a symbol is not `no`. */
  predicate SaysSet(e: Expr, s: Sym)
  {
    e == Symbol(s) || e == Comp(Equal, s, Yes) || e == Comp(Equal, s, Mod) || e == Comp(Unequal, s, No)
  }

  /** It is true exactly if one of the conjuncts is such a test. */
  lemma {:induction false} DependsExact(e: Expr, s: Sym)
    ensures DependsSymbol(e, s) <==> exists i :: 0 <= i < |Leaves(KAnd, e)| && SaysSet(Leaves(KAnd, e)[i], s)
  {
    var ls := Leaves(KAnd, e);
    if e.And? {
      DependsExact(e.left, s);
      DependsExact(e.right, s);
      var l, r := Leaves(KAnd, e.left), Leaves(KAnd, e.right);
      assert ls == l + r;
      if DependsSymbol(e.left, s) {
        var i :| 0 <= i < |l| && SaysSet(l[i], s);
        assert SaysSet(ls[i], s);
      } else if DependsSymbol(e.right, s) {
        var i :| 0 <= i < |r| && SaysSet(r[i], s);
        assert SaysSet(ls[|l| + i], s);
      } else {
        assert forall i :: 0 <= i < |ls| ==> ls[i] == if i < |l| then l[i] else r[i - |l|];
      }
    } else {
      assert ls == [e];
      assert SaysSet(e, s) ==> SaysSet(ls[0], s);
    }
  }

  /** A tree that depends on a symbol absolutely is `no` wherever the symbol is. */
  lemma {:induction false} DependsSymbolSound(e: Expr, s: Sym, env: Env)
    requires DependsSymbol(e, s) && !s.Other? && !s.Text?
    ensures SymVal(s, env) == NO ==> Eval(e, env) == NO
  {
    match e
    case And(a, b) =>
      if DependsSymbol(a, s) { DependsSymbolSound(a, s, env); } else { DependsSymbolSound(b, s, env); }
    case _ =>
  }

  /** `dep` or the prompt condition as the submenu test compares it. */
  function AsNotNo(e: Option<Expr>): Expr { EliminatedDups(Transform(TransCompareNoOpt(e))) }

  /** The superset test: factoring the common operands out of both leaves nothing of the parent's condition. */
  predicate Superset(item: Expr, parent: Option<Expr>)
  {
    EliminateEq(AsNotNo(Some(item)), AsNotNo(parent)).1 == Symbol(Yes)
  }

  ghost predicate InScope(e: Option<Expr>) { e.Some? ==> Scoped(e.value) && Logical(e.value) }

  ghost function LiftedOpt(e: Option<Expr>, env: Env): Tri { if e.None? then YES else Lifted(e.value, env) }

  /** The prepared comparison computes the lifted value. */
  lemma AsNotNoExact(e: Option<Expr>, env: Env)
    requires ScopedOpt(e)
    ensures Eval(AsNotNo(e), env) == LiftedOpt(e, env) && LiftedOpt(e, env) != MOD
  {
    var c := TransCompareNoOpt(e);
    if e.Some? { TransCompareNoExact(e.value, true, env); }
    TransformValue(c, env);
    TransformNormal(c);
    EliminatedDupsSound(Transform(c), env);
  }

  lemma AsNotNoSound(e: Option<Expr>, env: Env)
    requires InScope(e)
    ensures EvalOpt(e, env) == YES ==> Eval(AsNotNo(e), env) == YES
    ensures EvalOpt(e, env) == NO ==> Eval(AsNotNo(e), env) == NO
  {
    AsNotNoExact(e, env);
    if e.Some? { LiftedSound(e.value, env); }
  }

  /** What the superset test shows, for any expressions: where the item's lifted value is `yes`, so is the parent's. */
  lemma SupersetLifted(item: Expr, parent: Option<Expr>, env: Env)
    requires Scoped(item) && ScopedOpt(parent) && Superset(item, parent)
    ensures Lifted(item, env) <= LiftedOpt(parent, env)
  {
    AsNotNoExact(Some(item), env);
    AsNotNoExact(parent, env);
    var k, v := EliminateEqFactors(AsNotNo(Some(item)), AsNotNo(parent), env);
  }

  /** The superset test is sound: such an item has dependency `yes` only where the parent's prompt is visible. */
  lemma SupersetSound(item: Expr, parent: Option<Expr>, env: Env)
    requires InScope(Some(item)) && InScope(parent) && Superset(item, parent)
    ensures Eval(item, env) == YES ==> EvalOpt(parent, env) != NO
  {
    SupersetLifted(item, parent, env);
    LiftedSound(item, env);
    if parent.Some? { LiftedSound(parent.value, env); }
  }

  /** An element following `s` goes into its submenu. */
  predicate Placed(s: Sym, parent: Option<Expr>, item: Option<Expr>)
  {
    && item.Some?
    && ContainsSymbol(item.value, s)
    && (DependsSymbol(item.value, s) || Superset(item.value, parent))
  }

  /** The item is `yes` only where the symbol is set or its prompt visible. */
  ghost predicate OnlyIfShown(s: Sym, parent: Option<Expr>, item: Option<Expr>)
  {
    forall env: Env :: EvalOpt(item, env) == YES ==> SymVal(s, env) != NO || EvalOpt(parent, env) != NO
  }

  /** The loop of menu_finalize that collects the elements following a symbol into its submenu: the longest
      run of elements placed there, each `yes` only where the symbol is set or its prompt visible. */
  method CollectSubmenu(s: Sym, parent: Option<Expr>, items: seq<Option<Expr>>) returns (n: nat)
    requires !s.Other? && !s.Text? && InScope(parent) && forall i :: 0 <= i < |items| ==> InScope(items[i])
    ensures n <= |items|
    ensures forall i :: 0 <= i < n ==> Placed(s, parent, items[i])
    ensures n < |items| ==> !Placed(s, parent, items[n])
    ensures forall i :: 0 <= i < n ==> OnlyIfShown(s, parent, items[i])
  {
    hide AsNotNo, EliminateEq, DependsSymbol, ContainsSymbol, OnlyIfShown, InScope;
    var base := AsNotNo(parent);
    n := 0;
    while n < |items|
      invariant 0 <= n <= |items|
      invariant forall i :: 0 <= i < n ==> Placed(s, parent, items[i])
      invariant forall i :: 0 <= i < n ==> OnlyIfShown(s, parent, items[i])
    {
      var item := items[n];
      if item.None? || !ContainsSymbol(item.value, s) {
        break;
      }
      if !DependsSymbol(item.value, s) {
        var rest := EliminateEq(AsNotNo(item), base).1;
        if rest != Symbol(Yes) {
          break;
        }
      }
      PlacedSound(s, parent, item);
      n := n + 1;
    }
  }

  lemma PlacedSound(s: Sym, parent: Option<Expr>, item: Option<Expr>)
    requires !s.Other? && !s.Text? && InScope(parent) && InScope(item) && Placed(s, parent, item)
    ensures OnlyIfShown(s, parent, item)
  {
    forall env: Env | EvalOpt(item, env) == YES
      ensures SymVal(s, env) != NO || EvalOpt(parent, env) != NO
    {
      if DependsSymbol(item.value, s) {
        DependsSymbolSound(item.value, s, env);
      } else {
        SupersetSound(item.value, parent, env);
      }
    }
  }
}
