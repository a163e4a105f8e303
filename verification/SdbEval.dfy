/** The debugger's evaluator over token ranges (nemu/src/monitor/sdb/expr.c), and what it computes. */
module SdbEval {
  import opened SdbSyntax

  // ----- parentheses -----

  function Nesting(t: Token): int { if t.LParen? then 1 else if t.RParen? then -1 else 0 }

  /** Open parentheses before position i. */
  function Depth(s: seq<Token>, i: nat): int
    requires i <= |s|
  {
    if i == 0 then 0 else Depth(s, i - 1) + Nesting(s[i - 1])
  }

  ghost predicate Balanced(s: seq<Token>)
  {
    Depth(s, |s|) == 0 && forall i: nat :: i <= |s| ==> Depth(s, i) >= 0
  }

  /** One matching pair of parentheses around everything. */
  ghost predicate Wrapped(s: seq<Token>)
  {
    |s| >= 2 && s[0] == LParen && s[|s| - 1] == RParen && Balanced(s[1..|s| - 1])
  }

  /** check_parentheses on tokens p to q. */
  method CheckParentheses(tokens: seq<Token>, p: nat, q: nat) returns (r: bool)
    requires p < q < |tokens|
    ensures r <==> Wrapped(tokens[p..q + 1])
  {
    ghost var s := tokens[p..q + 1];
    if tokens[p] != LParen || tokens[q] != RParen { return false; }
    ghost var inner := s[1..|s| - 1];
    var count, i := 0, p + 1;
    while i < q
      invariant p + 1 <= i <= q && count >= 0
      invariant count == Depth(inner, i - p - 1) && forall j: nat :: j <= i - p - 1 ==> Depth(inner, j) >= 0
    {
      assert inner[i - p - 1] == tokens[i];
      if tokens[i] == LParen {
        count := count + 1;
      } else if tokens[i] == RParen {
        if count == 0 {
          assert Depth(inner, i - p) == -1;
          return false;
        }
        count := count - 1;
      }
      i := i + 1;
    }
    r := count == 0;
  }

  // ----- the main operator -----

  /** A token outside all parentheses. */
  predicate OnTop(s: seq<Token>, i: nat)
    requires i < |s|
  {
    !s[i].IsParen() && Depth(s, i) == 0
  }

  /** The candidate after the first n tokens, or -1, and its precedence. */
  function Scan(s: seq<Token>, n: nat): (r: (int, nat))
    requires n <= |s|
    ensures -1 <= r.0 < n
  {
    if n == 0 then (-1, 100)
    else
      var (best, least) := Scan(s, n - 1);
      var p := Precedence(s[n - 1]);
      if OnTop(s, n - 1) && (p < least || (p == least && p != 6)) then (n - 1, p) else (best, least)
  }

  function MainOp(s: seq<Token>): (k: int)
    ensures -1 <= k < |s|
  {
    Scan(s, |s|).0
  }

  /** find_main_operator on tokens p to q. */
  method FindMainOperator(tokens: seq<Token>, p: nat, q: nat) returns (mainOp: int)
    requires p <= q < |tokens|
    ensures var k := MainOp(tokens[p..q + 1]); mainOp == if k == -1 then -1 else p + k
  {
    ghost var s := tokens[p..q + 1];
    mainOp := -1;
    var least, count, i := 100, 0, p;
    while i <= q
      invariant p <= i <= q + 1 && count == Depth(s, i - p)
      invariant var (best, m) := Scan(s, i - p); least == m && mainOp == if best == -1 then -1 else p + best
    {
      assert s[i - p] == tokens[i];
      if tokens[i] == LParen {
        count := count + 1;
      } else if tokens[i] == RParen {
        count := count - 1;
      } else if count == 0 {
        var precedence := Precedence(tokens[i]);
        if precedence < least || (precedence == least && precedence != 6) {
          least := precedence;
          mainOp := i;
        }
      }
      i := i + 1;
    }
  }

  /** k binds least among the top tokens; of equals it is the last, except that of '*' and '/' it is the first. */
  ghost predicate Splits(s: seq<Token>, k: nat)
  {
    && k < |s| && OnTop(s, k) && Precedence(s[k]) <= 7
    && forall j: nat :: j < |s| && j != k && OnTop(s, j) ==>
         Precedence(s[j]) > Precedence(s[k]) ||
         (Precedence(s[j]) == Precedence(s[k]) && if Precedence(s[k]) == 6 then k < j else j < k)
  }

  lemma {:induction false} ScanFinds(s: seq<Token>, k: nat, n: nat)
    requires Splits(s, k) && n <= |s|
    ensures k < n ==> Scan(s, n) == (k, Precedence(s[k]))
    ensures n <= k ==> Scan(s, n).1 > Precedence(s[k]) || (Scan(s, n).1 == Precedence(s[k]) != 6)
    decreases n
  {
    if n > 0 { ScanFinds(s, k, n - 1); }
  }

  // ----- eval -----

  /** eval on a token range, as a function of the range. */
  ghost function EvalTokens(s: seq<Token>, env: Env, ok: bool): Outcome
    decreases |s|
  {
    if !ok then Ran(0, false)
    else if s == [] then Abort
    else if |s| == 1 then Leaf(s[0], env)
    else if Wrapped(s) then EvalTokens(s[1..|s| - 1], env, ok)
    else
      var k := MainOp(s);
      if k == -1 then Abort
      else
        var x := if s[k].Unary? then Ran(0, ok) else EvalTokens(s[..k], env, ok);
        if x.Abort? then Abort
        else
          AtOperator(s[k], x.value, EvalTokens(s[k + 1..], env, x.ok), env)
  }

  /** The switch over the main operator. */
  function AtOperator(t: Token, x: Word, y: Outcome, env: Env): Outcome
  {
    match t
    case Binary(op) => MeaningBin(op, x, y)
    case Unary(u) => MeaningUn(u, y, env)
    case _ => Abort
  }

  lemma Range(tokens: seq<Token>, p: nat, q: nat, i: nat, j: nat)
    requires p <= q <= |tokens| && i <= j <= q - p
    ensures tokens[p..q][i..j] == tokens[p + i..p + j]
  {
    var a, b := tokens[p..q][i..j], tokens[p + i..p + j];
    assert |a| == |b|;
    forall k | 0 <= k < |a| ensures a[k] == b[k] { assert a[k] == tokens[p..q][i + k]; }
  }

  method Eval(tokens: seq<Token>, p: nat, q: int, env: Env, ok: bool) returns (r: Outcome)
    requires p <= q + 1 <= |tokens|
    ensures r == EvalTokens(tokens[p..q + 1], env, ok)
    decreases q + 1 - p
  {
    hide Wrapped, MainOp, Leaf, AtOperator;
    ghost var s := tokens[p..q + 1];
    if !ok { return Ran(0, false); }
    if p > q { return Abort; }
    if p == q { return Leaf(tokens[p], env); }
    var c := CheckParentheses(tokens, p, q);
    if c {
      Range(tokens, p, q + 1, 1, q - p);
      r := Eval(tokens, p + 1, q - 1, env, ok);
      return;
    }
    var op := FindMainOperator(tokens, p, q);
    if op == -1 { return Abort; }
    ghost var k := op - p;
    Range(tokens, p, q + 1, 0, k);
    Range(tokens, p, q + 1, k + 1, q + 1 - p);
    assert s[0..k] == s[..k] && s[k + 1..q + 1 - p] == s[k + 1..];
    var x := Ran(0, ok);
    if !tokens[op].Unary? {
      x := Eval(tokens, p, op - 1, env, ok);
      assert x == EvalTokens(s[..k], env, ok);
      if x.Abort? { return Abort; }
    }
    var y := Eval(tokens, op + 1, q, env, x.ok);
    assert y == EvalTokens(s[k + 1..], env, x.ok);
    r := AtOperator(tokens[op], x.value, y, env);
  }

  // ----- retagging -----

  /** '*' or '-' that does not follow an operand is unary. */
  function Retag(s: seq<Token>, i: nat): Token
    requires i < |s|
  {
    if (i == 0 || !s[i - 1].EndsOperand()) && s[i] == Binary(StarOp) then Unary(Deref)
    else if (i == 0 || !s[i - 1].EndsOperand()) && s[i] == Binary(MinusOp) then Unary(Neg)
    else s[i]
  }

  function Retagged(s: seq<Token>): (r: seq<Token>)
    ensures |r| == |s| && forall i :: 0 <= i < |s| ==> r[i] == Retag(s, i)
  {
    seq(|s|, i requires 0 <= i < |s| => Retag(s, i))
  }

  /** The loop of expr that retags the tokens in place. */
  method RetagLoop(tokens: array<Token>)
    modifies tokens
    ensures tokens[..] == Retagged(old(tokens[..]))
  {
    var i := 0;
    while i < tokens.Length
      invariant 0 <= i <= tokens.Length
      invariant forall j :: i <= j < tokens.Length ==> tokens[j] == old(tokens[j])
      invariant forall j :: 0 <= j < i ==> tokens[j] == Retag(old(tokens[..]), j)
    {
      if tokens[i] == Binary(StarOp) || tokens[i] == Binary(MinusOp) {
        if i == 0 || !tokens[i - 1].EndsOperand() {
          tokens[i] := if tokens[i] == Binary(StarOp) then Unary(Deref) else Unary(Neg);
        }
      }
      i := i + 1;
    }
  }

  /** expr after make_token. */
  method Expr(tokens: array<Token>, env: Env) returns (r: Outcome)
    modifies tokens
    ensures r == if old(tokens[..]) == [] then Ran(0, false) else EvalTokens(Retagged(old(tokens[..])), env, true)
  {
    if tokens.Length == 0 { return Ran(0, false); }
    RetagLoop(tokens);
    r := Eval(tokens[..], 0, tokens.Length - 1, env, true);
    assert tokens[..][0..tokens.Length] == tokens[..];
  }
}
