/**
 Printing: an expression tree without parentheses is written with only the parentheses its operators'
 precedence needs, and parsing what was written gives the tree's own value back.
 */
module ArithmeticPrint {
  import opened Wrappers
  import opened ArithmeticGrammar
  import opened ArithmeticCorrect

  /** What an expression means, free of how it was bracketed. */
  datatype Ast<+K> =
    | Number(value: K)
    | Binary(op: Op, left: Ast<K>, right: Ast<K>)
    | Negate(arg: Ast<K>)
    | Raise(base: Ast<K>, exponent: Ast<K>)

  function Meaning<K>(arith: Arithmetic<K>, a: Ast<K>): Option<K> {
    match a
    case Number(k) => Some(k)
    case Negate(e) => (match Meaning(arith, e) case None => None case Some(v) => Some(arith.neg(v)))
    case Raise(b, e) =>
      (match (Meaning(arith, b), Meaning(arith, e))
       case (Some(x), Some(y)) => Some(arith.pow(x, y))
       case _ => None)
    case Binary(op, l, r) =>
      (match (Meaning(arith, l), Meaning(arith, r))
       case (Some(x), Some(y)) => if op == Div && arith.isZero(y) then None else Some(arith.Apply(op, x, y))
       case _ => None)
  }

  /** The binding strength of the outermost operator. */
  function Strength<K>(a: Ast<K>): nat {
    match a
    case Number(_) => ATOM
    case Raise(_, _) => POWER
    case Negate(_) => UNARY
    case Binary(op, _, _) => if op.Additive() then EXPR else TERM
  }

  /** The derivation of `a` at `level`: bracketed exactly when its own operator binds too weakly. */
  function Bracket<K>(a: Ast<K>, level: nat): Tree<K>
    decreases a, 1
  {
    if Strength(a) < level then Paren(Bare(a)) else Bare(a)
  }

  function Bare<K>(a: Ast<K>): Tree<K>
    decreases a, 0
  {
    match a
    case Number(k) => Lit(k)
    case Negate(e) => Neg(Bracket(e, UNARY))
    case Raise(b, e) => Pow(Bracket(b, ATOM), Bracket(e, UNARY))
    case Binary(op, l, r) =>
      if op.Additive() then Bin(op, Bracket(l, EXPR), Bracket(r, TERM))
      else Bin(op, Bracket(l, TERM), Bracket(r, UNARY))
  }

  function Print<K>(a: Ast<K>): seq<Token<K>> {
    Yield(Bracket(a, EXPR))
  }

  /** The expression a derivation stands for once its parentheses are forgotten. */
  function Strip<K>(t: Tree<K>): Ast<K> {
    match t
    case Lit(k) => Number(k)
    case Paren(e) => Strip(e)
    case Neg(e) => Negate(Strip(e))
    case Pow(b, e) => Raise(Strip(b), Strip(e))
    case Bin(op, l, r) => Binary(op, Strip(l), Strip(r))
  }

  lemma BareDerives<K>(a: Ast<K>)
    ensures Derives(Bare(a), Strength(a)) && Strip(Bare(a)) == a
    decreases a, 0
  {
    match a
    case Number(_) =>
    case Negate(e) => BracketDerives(e, UNARY);
    case Raise(b, e) => BracketDerives(b, ATOM); BracketDerives(e, UNARY);
    case Binary(op, l, r) =>
      if op.Additive() {
        BracketDerives(l, EXPR);
        BracketDerives(r, TERM);
      } else {
        BracketDerives(l, TERM);
        BracketDerives(r, UNARY);
      }
  }

  lemma BracketDerives<K>(a: Ast<K>, level: nat)
    requires level <= ATOM
    ensures Derives(Bracket(a, level), level) && Strip(Bracket(a, level)) == a
    decreases a, 1
  {
    BareDerives(a);
    DerivesBelow(Bare(a), Strength(a), level);
    DerivesBelow(Bare(a), Strength(a), EXPR);
  }

  lemma DerivesBelow<K>(t: Tree<K>, level: nat, lower: nat)
    requires Derives(t, level)
    ensures lower <= level ==> Derives(t, lower)
  {
  }

  /** Parentheses do not change a value. */
  lemma EvalStrip<K>(arith: Arithmetic<K>, t: Tree<K>)
    ensures Eval(arith.Numbers(), t) == Meaning(arith, Strip(t))
  {
  }

  /** Parsing what was printed gives the expression's own value, or reports its own zero divisor. */
  lemma ParseUndoesPrint<K(!new)>(arith: Arithmetic<K>, a: Ast<K>)
    ensures Parse(arith.Numbers(), Print(a))
            == (match Meaning(arith, a) case None => Error(DivisionByZero) case Some(v) => Value(v))
  {
    BracketDerives(a, EXPR);
    ParseYield(arith.Numbers(), Bracket(a, EXPR));
    EvalStrip(arith, Bracket(a, EXPR));
  }

  /** Two expressions are never printed alike. */
  lemma PrintInjective<K(!new)>(a: Ast<K>, b: Ast<K>)
    requires Print(a) == Print(b)
    ensures a == b
  {
    BracketDerives(a, EXPR);
    BracketDerives(b, EXPR);
    DerivationUnique(Bracket(a, EXPR), Bracket(b, EXPR));
  }

  /** Every parenthesis printed is needed: no derivation of the same expression is shorter. */
  lemma {:induction false} PrintShortest<K>(t: Tree<K>, level: nat)
    requires level <= ATOM && Derives(t, level)
    ensures |Yield(Bracket(Strip(t), level))| <= |Yield(t)|
    decreases t
  {
    match t
    case Lit(_) =>
    case Paren(e) => PrintShortest(e, EXPR);
    case Neg(e) => PrintShortest(e, UNARY);
    case Pow(b, e) => PrintShortest(b, ATOM); PrintShortest(e, UNARY);
    case Bin(op, l, r) =>
      if op.Additive() {
        PrintShortest(l, EXPR);
        PrintShortest(r, TERM);
      } else {
        PrintShortest(l, TERM);
        PrintShortest(r, UNARY);
      }
  }
}
