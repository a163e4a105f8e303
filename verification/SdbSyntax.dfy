/** Tokens and expressions of the debugger (nemu/src/monitor/sdb/expr.c). */
module SdbSyntax {

  const WORD: int := 0x1_0000_0000

  type Word = x: int | 0 <= x < WORD

  datatype BinOp = OrOp | AndOp | EqOp | NeqOp | LeOp | GeOp | LtOp | GtOp | PlusOp | MinusOp | StarOp | SlashOp

  datatype UnOp = Neg | Deref

  /** TK_NUM and TK_HEX with their value, TK_REG, parentheses and operators. Before the retagging loop '-' and '*' are
      binary operators wherever they stand. */
  datatype Token = Num(value: Word) | Reg(name: nat) | LParen | RParen | Binary(op: BinOp) | Unary(un: UnOp)
  {
    predicate IsParen() { LParen? || RParen? }

    /** The token types after which '-' and '*' are binary. */
    predicate EndsOperand() { Num? || Reg? || RParen? }
  }

  function OpPrecedence(op: BinOp): (p: nat)
    ensures 1 <= p <= 6
  {
    match op
    case OrOp => 1
    case AndOp => 2
    case EqOp => 3
    case NeqOp => 3
    case LeOp => 4
    case GeOp => 4
    case LtOp => 4
    case GtOp => 4
    case PlusOp => 5
    case MinusOp => 5
    case StarOp => 6
    case SlashOp => 6
  }

  function Precedence(t: Token): nat
  {
    match t
    case Binary(op) => OpPrecedence(op)
    case Unary(_) => 7
    case _ => 100
  }

  /** Registers and memory. */
  datatype Env = Env(regs: map<nat, Word>, mem: Word -> Word)

  /** An assertion failed or the result is undefined, or a value together with `*success`. */
  datatype Outcome = Abort | Ran(value: Word, ok: bool)

  function Signed(x: Word): (v: int)
    ensures -0x8000_0000 <= v < 0x8000_0000 && v % WORD == x
  {
    if x >= 0x8000_0000 then x - WORD else x
  }

  function Truth(b: bool): Word { if b then 1 else 0 }

  /** C division of signed integers where it is defined, as a word. */
  function Quotient(a: int, b: int): Word
    requires b != 0
  {
    var q := (if a < 0 then -a else a) / (if b < 0 then -b else b);
    (if (a < 0) == (b < 0) then q else -q) % WORD
  }

  /** The switch over binary operators; dividing by zero is an assertion failure, and -2^31 / -1 is undefined. */
  function Apply(op: BinOp, x: Word, y: Word, ok: bool): Outcome
  {
    match op
    case OrOp => Ran(Truth(x != 0 || y != 0), ok)
    case AndOp => Ran(Truth(x != 0 && y != 0), ok)
    case EqOp => Ran(Truth(x == y), ok)
    case NeqOp => Ran(Truth(x != y), ok)
    case LeOp => Ran(Truth(Signed(x) <= Signed(y)), ok)
    case GeOp => Ran(Truth(Signed(x) >= Signed(y)), ok)
    case LtOp => Ran(Truth(Signed(x) < Signed(y)), ok)
    case GtOp => Ran(Truth(Signed(x) > Signed(y)), ok)
    case PlusOp => Ran((x + y) % WORD, ok)
    case MinusOp => Ran((x - y) % WORD, ok)
    case StarOp => Ran((x * y) % WORD, ok)
    case SlashOp =>
      if y == 0 || (x == 0x8000_0000 && y == 0xffff_ffff) then Abort else Ran(Quotient(Signed(x), Signed(y)), ok)
  }

  function ApplyUn(u: UnOp, x: Word, env: Env): Word { if u == Neg then (WORD - x) % WORD else env.mem(x) }

  /** A single token. */
  function Leaf(t: Token, env: Env): Outcome
  {
    match t
    case Num(v) => Ran(v, true)
    case Reg(name) => if name in env.regs then Ran(env.regs[name], true) else Ran(0, false)
    case _ => Abort
  }

  // ----- expressions -----

  datatype Ast = Lit(token: Token) | Paren(inner: Ast) | Un(un: UnOp, arg: Ast) | Bin(op: BinOp, left: Ast, right: Ast)
  {
    /** How tightly the outermost operator binds. */
    function Level(): nat
    {
      match this
      case Lit(_) => 8
      case Paren(_) => 8
      case Un(_, _) => 7
      case Bin(op, _, _) => OpPrecedence(op)
    }

    /** The trees the usual precedences and left associativity give: parentheses are explicit. */
    predicate WellFormed()
    {
      match this
      case Lit(t) => t.Num? || t.Reg?
      case Paren(a) => a.WellFormed()
      case Un(_, a) => a.WellFormed() && a.Level() >= 7
      case Bin(op, l, r) =>
        l.WellFormed() && r.WellFormed() && l.Level() >= OpPrecedence(op) && r.Level() > OpPrecedence(op)
    }

    function Size(): nat
    {
      match this
      case Lit(_) => 1
      case Paren(a) => 1 + a.Size()
      case Un(_, a) => 1 + a.Size()
      case Bin(_, l, r) => 1 + l.Size() + r.Size()
    }
  }

  /** The tokens of an expression, after retagging. */
  function Render(a: Ast): seq<Token>
  {
    match a
    case Lit(t) => [t]
    case Paren(b) => [LParen] + Render(b) + [RParen]
    case Un(u, b) => [Unary(u)] + Render(b)
    case Bin(op, l, r) => Render(l) + [Binary(op)] + Render(r)
  }

  /** The tokens as make_token leaves them. */
  function RenderRaw(a: Ast): seq<Token>
  {
    match a
    case Lit(t) => [t]
    case Paren(b) => [LParen] + RenderRaw(b) + [RParen]
    case Un(u, b) => [Binary(if u == Neg then MinusOp else StarOp)] + RenderRaw(b)
    case Bin(op, l, r) => RenderRaw(l) + [Binary(op)] + RenderRaw(r)
  }

  /** What an expression means, with the operands evaluated from left to right. */
  function Meaning(a: Ast, env: Env, ok: bool): Outcome
  {
    if !ok then Ran(0, false)
    else
      match a
      case Lit(t) => Leaf(t, env)
      case Paren(b) => Meaning(b, env, ok)
      case Un(u, b) => MeaningUn(u, Meaning(b, env, ok), env)
      case Bin(op, l, r) =>
        var x := Meaning(l, env, ok);
        if x.Abort? then Abort else MeaningBin(op, x.value, Meaning(r, env, x.ok))
  }

  function MeaningUn(u: UnOp, x: Outcome, env: Env): Outcome
  {
    if x.Abort? then Abort else Ran(ApplyUn(u, x.value, env), x.ok)
  }

  function MeaningBin(op: BinOp, x: Word, y: Outcome): Outcome
  {
    if y.Abort? then Abort else Apply(op, x, y.value, y.ok)
  }
}
