/** Recursive dependency detection over symbols without choices (nemu/tools/kconfig/symbol.c, parser.y). */
module KconfigDeps {
  import opened KconfigExpr

  datatype PropType = Prompt | Comment | Menu | Default | Choice | Select | Imply | Range | SymbolProp

  datatype Property = Property(kind: PropType, visible: Option<Expr>, expr: Option<Expr>)

  /** What a symbol refers to: its dependencies, who selects and who implies it, and its properties. */
  datatype Declaration =
    Declaration(dirDep: Option<Expr>, revDep: Option<Expr>, implied: Option<Expr>, props: seq<Property>)

  function OptSyms(e: Option<Expr>): set<Sym> { if e.None? then {} else ExprSyms(e.value) }

  /** The symbols a property makes its owner depend on. */
  function PropSyms(p: Property): set<Sym>
  {
    if p.kind == Choice || p.kind == Select || p.kind == Imply then {}
    else OptSyms(p.visible) + if p.kind == Default then OptSyms(p.expr) else {}
  }

  function DepsOf(d: Declaration): set<Sym>
  {
    OptSyms(d.dirDep) + OptSyms(d.revDep) + OptSyms(d.implied) + set p, s | p in d.props && s in PropSyms(p) :: s
  }

  lemma DepsParts(d: Declaration)
    ensures OptSyms(d.dirDep) <= DepsOf(d) && OptSyms(d.revDep) <= DepsOf(d) && OptSyms(d.implied) <= DepsOf(d)
    ensures forall p :: p in d.props ==> PropSyms(p) <= DepsOf(d)
  {
  }

  lemma DepsCovered(d: Declaration, all: set<Sym>)
    requires OptSyms(d.dirDep) <= all && OptSyms(d.revDep) <= all && OptSyms(d.implied) <= all
    requires forall p :: p in d.props ==> PropSyms(p) <= all
    ensures DepsOf(d) <= all
  {
  }

  type Graph = map<Sym, Declaration>

  /** Every symbol that is referred to exists. */
  predicate Closed(g: Graph) { forall a :: a in g ==> DepsOf(g[a]) <= g.Keys }

  lemma DepExists(g: Graph, a: Sym, b: Sym)
    requires Closed(g) && Depends(g, a, b)
    ensures b in g
  {
  }

  predicate Depends(g: Graph, a: Sym, b: Sym) { a in g && b in DepsOf(g[a]) }

  /** Each symbol depends on the next. */
  predicate IsPath(g: Graph, p: seq<Sym>) { forall i :: 0 <= i < |p| - 1 ==> StepAt(g, p, i) }

  predicate StepAt(g: Graph, p: seq<Sym>, i: int)
    requires 0 <= i < |p| - 1
  {
    Depends(g, p[i], p[i + 1])
  }

  predicate IsCycle(g: Graph, p: seq<Sym>) { |p| >= 2 && IsPath(g, p) && p[0] == p[|p| - 1] }

  ghost predicate OnCycle(g: Graph, s: Sym) { exists p :: IsCycle(g, p) && p[0] == s }

  ghost predicate Acyclic(g: Graph) { forall p :: !IsCycle(g, p) }

  ghost function Elements(s: seq<Sym>): set<Sym> { set x | x in s }

  /** Every symbol comes after everything it depends on. */
  ghost predicate Topological(g: Graph, order: seq<Sym>)
  {
    forall i :: 0 <= i < |order| ==> order[i] in g && DepsOf(g[order[i]]) <= Elements(order[..i])
  }

  // ----- what the order proves -----

  /** From position i of the order, a path only leads to earlier positions. */
  lemma {:induction false} PathDescends(g: Graph, order: seq<Sym>, p: seq<Sym>, i: nat) returns (j: nat)
    requires Topological(g, order) && IsPath(g, p) && |p| > 0 && i < |order| && order[i] == p[0]
    ensures j < |order| && order[j] == p[|p| - 1] && j <= i && (|p| > 1 ==> j < i)
    decreases |p|
  {
    if |p| == 1 { return i; }
    assert StepAt(g, p, 0) && p[1] in Elements(order[..i]);
    var k :| 0 <= k < i && order[k] == p[1];
    PathTail(g, p);
    j := PathDescends(g, order, p[1..], k);
  }

  lemma PathTail(g: Graph, p: seq<Sym>)
    requires IsPath(g, p) && |p| > 0
    ensures IsPath(g, p[1..])
  {
    forall i | 0 <= i < |p[1..]| - 1 ensures StepAt(g, p[1..], i) { assert StepAt(g, p, i + 1); }
  }

  lemma PathAppend(g: Graph, p: seq<Sym>, s: Sym)
    requires IsPath(g, p) && (p != [] ==> Depends(g, p[|p| - 1], s))
    ensures IsPath(g, p + [s])
  {
    forall i | 0 <= i < |p| ensures StepAt(g, p + [s], i) {
      if i < |p| - 1 { assert StepAt(g, p, i); }
    }
  }

  lemma PathFrom(g: Graph, p: seq<Sym>, k: nat)
    requires IsPath(g, p) && k <= |p|
    ensures IsPath(g, p[k..]) && IsPath(g, p[..k])
  {
    forall i | 0 <= i < |p[k..]| - 1 ensures StepAt(g, p[k..], i) { assert StepAt(g, p, i + k); }
    forall i | 0 <= i < |p[..k]| - 1 ensures StepAt(g, p[..k], i) { assert StepAt(g, p, i); }
  }

  /** No cycle can be reached from a symbol in the order. */
  lemma NoCycleReachable(g: Graph, order: seq<Sym>, p: seq<Sym>, c: seq<Sym>)
    requires Topological(g, order) && IsPath(g, p) && |p| > 0 && p[0] in order && |c| > 0 && p[|p| - 1] == c[0]
    ensures !IsCycle(g, c)
  {
    if IsCycle(g, c) {
      var i :| 0 <= i < |order| && order[i] == p[0];
      var j := PathDescends(g, order, p, i);
      DescendForever(g, order, c, j);
    }
  }

  lemma {:induction false} DescendForever(g: Graph, order: seq<Sym>, c: seq<Sym>, j: nat)
    requires Topological(g, order) && IsCycle(g, c) && j < |order| && order[j] == c[0]
    ensures false
    decreases j
  {
    var k := PathDescends(g, order, c, j);
    DescendForever(g, order, c, k);
  }

  lemma TopologicalAcyclic(g: Graph, order: seq<Sym>)
    requires Topological(g, order)
    requires forall s :: s in g && s !in Elements(order) ==> DepsOf(g[s]) == {}
    ensures Acyclic(g)
  {
    forall c | IsCycle(g, c) ensures false {
      assert StepAt(g, c, 0);
      NoCycleReachable(g, order, [c[0]], c);
    }
  }

  lemma TopologicalAppend(g: Graph, order: seq<Sym>, s: Sym)
    requires Topological(g, order) && s in g && DepsOf(g[s]) <= Elements(order)
    ensures Topological(g, order + [s]) && Elements(order + [s]) == Elements(order) + {s}
  {
    var after := order + [s];
    forall i | 0 <= i < |after| ensures after[i] in g && DepsOf(g[after[i]]) <= Elements(after[..i]) {
      assert after[..i] == order[..i];
      if i == |order| { assert after[..i] == order; }
    }
  }

  /** The part of the stack from a symbol on, and back to it, is a cycle. */
  lemma StackCycle(g: Graph, stack: seq<Sym>, s: Sym)
    requires IsPath(g, stack) && s in stack && Depends(g, stack[|stack| - 1], s)
    ensures OnCycle(g, s)
  {
    var k :| 0 <= k < |stack| && stack[k] == s;
    PathFrom(g, stack, k);
    PathAppend(g, stack[k..], s);
    var c := stack[k..] + [s];
    assert IsCycle(g, c) && c[0] == s;
  }

  lemma FewerLeft(g: Graph, before: set<Sym>, after: set<Sym>)
    requires before <= after
    ensures |g.Keys - after| <= |g.Keys - before|
    ensures forall s :: s in g && s !in before && s in after ==> |g.Keys - after| < |g.Keys - before|
  {
    var a, b := g.Keys - after, g.Keys - before;
    assert b == a + (b - a);
    forall s | s in g && s !in before && s in after ensures |a| < |b| {
      assert s in b - a;
    }
  }

  lemma StackElements(stack: seq<Sym>, s: Sym)
    ensures s in stack <==> s in Elements(stack)
  {
  }

  lemma SameDifference(checked: set<Sym>, check: set<Sym>, s: Sym)
    requires s !in checked
    ensures (checked + {s}) - (check + {s}) == checked - check
  {
  }

  lemma AddsBack(checked: set<Sym>, check: set<Sym>, s: Sym)
    requires s in checked && s !in check
    ensures (checked - (check + {s})) + {s} == checked - check && (check + {s}) - {s} == check
  {
  }

  class Checker {
    const graph: Graph
    /** The symbols with SYMBOL_CHECK and SYMBOL_CHECKED, and the chain of symbols being checked. */
    var check: set<Sym>
    var checked: set<Sym>
    var stack: seq<Sym>
    /** The symbols that passed, in the order in which they did. */
    ghost var order: seq<Sym>

    constructor (graph: Graph)
      requires Closed(graph)
      ensures Valid() && Clean() && this.graph == graph && check == checked == {} && stack == [] && order == []
    {
      this.graph := graph;
      check, checked, stack, order := {}, {}, [], [];
    }

    ghost predicate Valid()
      reads this
    {
      Closed(graph) && check == Elements(stack) && check <= checked <= graph.Keys && IsPath(graph, stack)
    }

    /** While no check has failed: the checked symbols that are not being checked are in order. */
    ghost predicate Clean()
      reads this
    {
      Elements(order) == checked - check && Topological(graph, order)
    }

    /** sym_check_deps. */
    method CheckDeps(sym: Sym) returns (r: Option<Sym>)
      requires Valid() && sym in graph && (stack != [] ==> Depends(graph, stack[|stack| - 1], sym))
      modifies this
      ensures Valid() && check == old(check) && stack == old(stack) && old(checked) <= checked && sym in checked
      ensures r.Some? ==> OnCycle(graph, r.value)
      ensures r.None? && old(Clean()) ==> Clean() && sym in Elements(order) && Elements(old(order)) <= Elements(order)
      decreases |graph.Keys - checked|, 0, 1
    {
      hide OnCycle, IsPath, Closed, DepsOf, Topological;
      if sym in check {
        StackCycle(graph, stack, sym);
        return Some(sym);
      }
      if sym in checked { return None; }
      r := CheckNew(sym);
    }

    /** A symbol seen for the first time: SYMBOL_CHECK is set during the check, SYMBOL_CHECKED from now on. */
    method CheckNew(sym: Sym) returns (r: Option<Sym>)
      requires Valid() && sym in graph && sym !in checked && (stack != [] ==> Depends(graph, stack[|stack| - 1], sym))
      modifies this
      ensures Valid() && check == old(check) && stack == old(stack) && old(checked) <= checked && sym in checked
      ensures r.Some? ==> OnCycle(graph, r.value)
      ensures r.None? && old(Clean()) ==> Clean() && sym in Elements(order) && Elements(old(order)) <= Elements(order)
      decreases |graph.Keys - checked|, 0, 0
    {
      hide OnCycle, IsPath, Closed, DepsOf, Topological, Elements;
      StackElements(stack, sym);
      check, checked := check + {sym}, checked + {sym};
      FewerLeft(graph, old(checked), checked);
      SameDifference(old(checked), old(check), sym);
      r := CheckSymDeps(sym);
      check := check - {sym};
      if r.None? && old(Clean()) {
        TopologicalAppend(graph, order, sym);
        AddsBack(checked, old(check), sym);
        order := order + [sym];
      }
    }

    /** sym_check_sym_deps: every expression of the symbol, with the symbol on the stack. */
    method CheckSymDeps(sym: Sym) returns (r: Option<Sym>)
      requires Closed(graph) && check == Elements(stack) + {sym} && check <= checked <= graph.Keys
      requires sym !in stack && IsPath(graph, stack)
      requires stack != [] ==> Depends(graph, stack[|stack| - 1], sym)
      modifies this
      ensures check == old(check) && stack == old(stack) && old(checked) <= checked <= graph.Keys
      ensures r.Some? ==> OnCycle(graph, r.value)
      ensures r.None? && old(Clean()) ==>
                Clean() && DepsOf(graph[sym]) <= Elements(order) && Elements(old(order)) <= Elements(order)
      decreases |graph.Keys - checked|, 5, 0
    {
      hide OnCycle, IsPath, Closed, Topological, DepsOf, OptSyms, PropSyms;
      var d := graph[sym];
      DepsParts(d);
      PathAppend(graph, stack, sym);
      stack := stack + [sym];
      r := CheckDecl(sym, d);
      stack := stack[..|stack| - 1];
    }

    method CheckDecl(sym: Sym, d: Declaration) returns (r: Option<Sym>)
      requires Valid() && stack != [] && stack[|stack| - 1] == sym && sym in graph && graph[sym] == d
      modifies this
      ensures Valid() && check == old(check) && stack == old(stack) && old(checked) <= checked
      ensures r.Some? ==> OnCycle(graph, r.value)
      ensures r.None? && old(Clean()) ==>
                Clean() && DepsOf(d) <= Elements(order) && Elements(old(order)) <= Elements(order)
      decreases |graph.Keys - checked|, 4, 0
    {
      hide OnCycle, IsPath, Closed, Topological, DepsOf, OptSyms, PropSyms;
      DepsParts(d);
      r := CheckOptDeps(d.dirDep);
      if r.Some? { return; }
      FewerLeft(graph, old(checked), checked);
      r := CheckOptDeps(d.revDep);
      if r.Some? { return; }
      FewerLeft(graph, old(checked), checked);
      r := CheckOptDeps(d.implied);
      if r.Some? { return; }
      FewerLeft(graph, old(checked), checked);
      r := CheckProps(sym);
      if r.None? && old(Clean()) { DepsCovered(d, Elements(order)); }
    }

    /** The symbol whose expressions are being checked. */
    ghost predicate Checking(syms: set<Sym>)
      reads this
    {
      stack != [] && stack[|stack| - 1] in graph && syms <= DepsOf(graph[stack[|stack| - 1]])
    }

    /** sym_check_expr_deps of a missing expression or a tree. */
    method CheckOptDeps(e: Option<Expr>) returns (r: Option<Sym>)
      requires Valid() && Checking(OptSyms(e))
      modifies this
      ensures Valid() && check == old(check) && stack == old(stack) && old(checked) <= checked
      ensures r.Some? ==> OnCycle(graph, r.value)
      ensures r.None? && old(Clean()) ==>
                Clean() && OptSyms(e) <= Elements(order) && Elements(old(order)) <= Elements(order)
      decreases |graph.Keys - checked|, 1, e
    {
      if e.None? { return None; }
      r := CheckExprDeps(e.value);
    }

    method CheckExprDeps(e: Expr) returns (r: Option<Sym>)
      requires Valid() && Checking(ExprSyms(e))
      modifies this
      ensures Valid() && check == old(check) && stack == old(stack) && old(checked) <= checked
      ensures r.Some? ==> OnCycle(graph, r.value)
      ensures r.None? && old(Clean()) ==>
                Clean() && ExprSyms(e) <= Elements(order) && Elements(old(order)) <= Elements(order)
      decreases |graph.Keys - checked|, 1, e
    {
      hide OnCycle, IsPath, Closed, DepsOf;
      match e
      case Symbol(s) =>
        DepExists(graph, stack[|stack| - 1], s);
        r := CheckDeps(s);
      case Not(a) =>
        r := CheckExprDeps(a);
      case And(a, b) =>
        r := CheckExprDeps(a);
        if r.Some? { return; }
        FewerLeft(graph, old(checked), checked);
        r := CheckExprDeps(b);
      case Or(a, b) =>
        r := CheckExprDeps(a);
        if r.Some? { return; }
        FewerLeft(graph, old(checked), checked);
        r := CheckExprDeps(b);
      case Comp(_, l, rt) =>
        DepExists(graph, stack[|stack| - 1], l);
        DepExists(graph, stack[|stack| - 1], rt);
        r := CheckDeps(l);
        if r.Some? { return; }
        FewerLeft(graph, old(checked), checked);
        r := CheckDeps(rt);
    }

    /** The loop over the properties. */
    method CheckProps(sym: Sym) returns (r: Option<Sym>)
      requires Valid() && stack != [] && stack[|stack| - 1] == sym && sym in graph
      modifies this
      ensures Valid() && check == old(check) && stack == old(stack) && old(checked) <= checked
      ensures r.Some? ==> OnCycle(graph, r.value)
      ensures r.None? && old(Clean()) ==>
                && Clean() && Elements(old(order)) <= Elements(order)
                && forall p :: p in graph[sym].props ==> PropSyms(p) <= Elements(order)
      decreases |graph.Keys - checked|, 3, 0
    {
      hide OnCycle, IsPath, Closed, Topological, DepsOf;
      var props, i := graph[sym].props, 0;
      r := None;
      while i < |props|
        invariant 0 <= i <= |props| && r.None? && Valid()
        invariant check == old(check) && stack == old(stack) && old(checked) <= checked
        invariant old(Clean()) ==> Clean() && Elements(old(order)) <= Elements(order)
        invariant old(Clean()) ==> forall j :: 0 <= j < i ==> PropSyms(props[j]) <= Elements(order)
      {
        FewerLeft(graph, old(checked), checked);
        r := CheckProp(sym, props[i]);
        if r.Some? { return; }
        i := i + 1;
      }
    }

    method CheckProp(sym: Sym, p: Property) returns (r: Option<Sym>)
      requires Valid() && stack != [] && stack[|stack| - 1] == sym && sym in graph && p in graph[sym].props
      modifies this
      ensures Valid() && check == old(check) && stack == old(stack) && old(checked) <= checked
      ensures r.Some? ==> OnCycle(graph, r.value)
      ensures r.None? && old(Clean()) ==>
                Clean() && PropSyms(p) <= Elements(order) && Elements(old(order)) <= Elements(order)
      decreases |graph.Keys - checked|, 2, 0
    {
      hide OnCycle, IsPath, Closed, Topological, DepsOf, OptSyms;
      DepsParts(graph[sym]);
      if p.kind == Choice || p.kind == Select || p.kind == Imply { return None; }
      r := CheckOptDeps(p.visible);
      if r.Some? || p.kind != Default { return; }
      FewerLeft(graph, old(checked), checked);
      r := CheckOptDeps(p.expr);
    }
  }

  /** The loop of conf_parse over the symbols of the hash table, which lacks only y, m and n: it finds no error exactly
      if there is no recursive dependency. */
  method CheckAll(graph: Graph, syms: seq<Sym>) returns (errors: nat)
    requires Closed(graph) && Elements(syms) <= graph.Keys
    requires forall s :: s in graph && s !in Elements(syms) ==> DepsOf(graph[s]) == {}
    ensures errors == 0 <==> Acyclic(graph)
  {
    hide IsPath, Closed, Topological, DepsOf;
    var c := new Checker(graph);
    errors := 0;
    var i := 0;
    while i < |syms|
      invariant 0 <= i <= |syms| && c.Valid() && c.stack == [] && c.check == {} && c.graph == graph && fresh(c)
      invariant errors == 0 ==> c.Clean() && forall j :: 0 <= j < i ==> syms[j] in Elements(c.order)
      invariant errors > 0 ==> !Acyclic(graph)
    {
      assert syms[i] in Elements(syms);
      var r := c.CheckDeps(syms[i]);
      if r.Some? { errors := errors + 1; }
      i := i + 1;
    }
    if errors == 0 {
      TopologicalAcyclic(graph, c.order);
    }
  }
}
