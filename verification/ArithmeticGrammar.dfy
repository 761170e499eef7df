/**
 The expression language of the `math.arithmetic.solve` capability: its tokens, its grammar as
 derivation trees, and the value of a tree.

     expr  := expr ('+' | '-') term | term
     term  := term ('*' | '/') unary | unary
     unary := '-' unary | power
     power := atom '^' unary | atom
     atom  := number | '(' expr ')'

 Numbers are abstract: an `Algebra` says what the operators compute and which values count as zero.
 */
module ArithmeticGrammar {
  import opened Wrappers

  datatype Token<+K> = Num(value: K) | Plus | Minus | Star | Slash | Caret | LParen | RParen

  datatype Op = Add | Sub | Mul | Div {
    predicate Additive() { this == Add || this == Sub }

    function Symbol<K>(): Token<K> {
      match this
      case Add => Plus
      case Sub => Minus
      case Mul => Star
      case Div => Slash
    }
  }

  /** What each construct of the language computes, for literals of type `K` and values of type `N`. */
  datatype Algebra<!K, !N> = Algebra(
    lit: K -> N, bin: (Op, N, N) -> N, neg: N -> N, pow: (N, N) -> N, group: N -> N, isZero: N -> bool)

  /** The arithmetic of one number type; the engine uses 64-bit floats. */
  datatype Arithmetic<!K> = Arithmetic(
    add: (K, K) -> K, sub: (K, K) -> K, mul: (K, K) -> K, div: (K, K) -> K,
    neg: K -> K, pow: (K, K) -> K, isZero: K -> bool)
  {
    function Apply(op: Op, a: K, b: K): K {
      match op
      case Add => add(a, b)
      case Sub => sub(a, b)
      case Mul => mul(a, b)
      case Div => div(a, b)
    }

    /** Literals and parentheses stand for the number itself. */
    function Numbers(): Algebra<K, K> {
      Algebra((k: K) => k, (op: Op, a: K, b: K) => Apply(op, a, b), neg, pow, (k: K) => k, isZero)
    }
  }

  datatype Tree<+K> =
    | Lit(value: K)
    | Bin(op: Op, left: Tree<K>, right: Tree<K>)
    | Neg(arg: Tree<K>)
    | Pow(base: Tree<K>, exponent: Tree<K>)
    | Paren(inner: Tree<K>)

  const EXPR: nat := 0
  const TERM: nat := 1
  const UNARY: nat := 2
  const POWER: nat := 3
  const ATOM: nat := 4

  /** `t` is a derivation of the nonterminal numbered `level`. */
  ghost predicate Derives<K>(t: Tree<K>, level: nat) {
    match t
    case Lit(_) => level <= ATOM
    case Paren(e) => level <= ATOM && Derives(e, EXPR)
    case Pow(b, e) => level <= POWER && Derives(b, ATOM) && Derives(e, UNARY)
    case Neg(e) => level <= UNARY && Derives(e, UNARY)
    case Bin(op, l, r) =>
      if op.Additive() then level <= EXPR && Derives(l, EXPR) && Derives(r, TERM)
      else level <= TERM && Derives(l, TERM) && Derives(r, UNARY)
  }

  /** The tokens at the leaves of a derivation, left to right. */
  function Yield<K>(t: Tree<K>): seq<Token<K>> {
    match t
    case Lit(k) => [Num(k)]
    case Paren(e) => [LParen] + Yield(e) + [RParen]
    case Pow(b, e) => Yield(b) + [Caret] + Yield(e)
    case Neg(e) => [Minus] + Yield(e)
    case Bin(op, l, r) => Yield(l) + [op.Symbol()] + Yield(r)
  }

  /** The value of a derivation; `None` when some divisor in it is zero. */
  function Eval<K, N>(alg: Algebra<K, N>, t: Tree<K>): Option<N> {
    match t
    case Lit(k) => Some(alg.lit(k))
    case Paren(e) => (match Eval(alg, e) case None => None case Some(v) => Some(alg.group(v)))
    case Neg(e) => (match Eval(alg, e) case None => None case Some(v) => Some(alg.neg(v)))
    case Pow(b, e) =>
      (match (Eval(alg, b), Eval(alg, e))
       case (Some(x), Some(y)) => Some(alg.pow(x, y))
       case _ => None)
    case Bin(op, l, r) =>
      (match (Eval(alg, l), Eval(alg, r))
       case (Some(x), Some(y)) => if op == Div && alg.isZero(y) then None else Some(alg.bin(op, x, y))
       case _ => None)
  }

  /** The algebra whose values are the derivations themselves. */
  function FreeAlgebra<K>(): Algebra<K, Tree<K>> {
    Algebra(
      (k: K) => Lit(k),
      (op: Op, l: Tree<K>, r: Tree<K>) => Bin(op, l, r),
      (e: Tree<K>) => Neg(e),
      (b: Tree<K>, e: Tree<K>) => Pow(b, e),
      (e: Tree<K>) => Paren(e),
      (e: Tree<K>) => false)
  }

  // ----- Recursive descent -----

  datatype ParseError =
    | EmptyExpression
    | TrailingToken
    | UnexpectedEnd
    | UnexpectedToken
    | MissingRParen
    | DivisionByZero

  datatype Step<!K, !N> = Parsed(value: N, rest: seq<Token<K>>) | Failed(error: ParseError)

  ghost predicate StartsWith<K(!new)>(ts: seq<Token<K>>, token: Token<K>) {
    ts != [] && ts[0] == token
  }

  function Expression<K, N>(alg: Algebra<K, N>, ts: seq<Token<K>>): (r: Step<K, N>)
    ensures r.Parsed? ==> |r.rest| < |ts|
    decreases |ts|, 5
  {
    match Term(alg, ts)
    case Failed(e) => Failed(e)
    case Parsed(v, rest) => ExpressionTail(alg, v, rest)
  }

  function ExpressionTail<K, N>(alg: Algebra<K, N>, v: N, ts: seq<Token<K>>): (r: Step<K, N>)
    ensures r.Parsed? ==> |r.rest| <= |ts|
    decreases |ts|, 6
  {
    if ts == [] || !(ts[0].Plus? || ts[0].Minus?) then Parsed(v, ts)
    else
      match Term(alg, ts[1..])
      case Failed(e) => Failed(e)
      case Parsed(w, rest) =>
        ExpressionTail(alg, alg.bin(if ts[0].Plus? then Add else Sub, v, w), rest)
  }

  function Term<K, N>(alg: Algebra<K, N>, ts: seq<Token<K>>): (r: Step<K, N>)
    ensures r.Parsed? ==> |r.rest| < |ts|
    decreases |ts|, 3
  {
    match Unary(alg, ts)
    case Failed(e) => Failed(e)
    case Parsed(v, rest) => TermTail(alg, v, rest)
  }

  function TermTail<K, N>(alg: Algebra<K, N>, v: N, ts: seq<Token<K>>): (r: Step<K, N>)
    ensures r.Parsed? ==> |r.rest| <= |ts|
    decreases |ts|, 4
  {
    if ts == [] || !(ts[0].Star? || ts[0].Slash?) then Parsed(v, ts)
    else
      match Unary(alg, ts[1..])
      case Failed(e) => Failed(e)
      case Parsed(w, rest) =>
        if ts[0].Slash? && alg.isZero(w) then Failed(DivisionByZero)
        else TermTail(alg, alg.bin(if ts[0].Star? then Mul else Div, v, w), rest)
  }

  function Unary<K, N>(alg: Algebra<K, N>, ts: seq<Token<K>>): (r: Step<K, N>)
    ensures r.Parsed? ==> |r.rest| < |ts|
    decreases |ts|, 2
  {
    if ts != [] && ts[0].Minus? then
      match Unary(alg, ts[1..])
      case Failed(e) => Failed(e)
      case Parsed(v, rest) => Parsed(alg.neg(v), rest)
    else Power(alg, ts)
  }

  function Power<K, N>(alg: Algebra<K, N>, ts: seq<Token<K>>): (r: Step<K, N>)
    ensures r.Parsed? ==> |r.rest| < |ts|
    decreases |ts|, 1
  {
    match Atom(alg, ts)
    case Failed(e) => Failed(e)
    case Parsed(b, rest) =>
      if rest != [] && rest[0].Caret? then
        match Unary(alg, rest[1..])
        case Failed(e) => Failed(e)
        case Parsed(e, rest2) => Parsed(alg.pow(b, e), rest2)
      else Parsed(b, rest)
  }

  function Atom<K, N>(alg: Algebra<K, N>, ts: seq<Token<K>>): (r: Step<K, N>)
    ensures r.Parsed? ==> |r.rest| < |ts|
    decreases |ts|, 0
  {
    if ts == [] then Failed(UnexpectedEnd)
    else
      match ts[0]
      case Num(k) => Parsed(alg.lit(k), ts[1..])
      case LParen =>
        (match Expression(alg, ts[1..])
         case Failed(e) => Failed(e)
         case Parsed(v, rest) =>
           if rest != [] && rest[0].RParen? then Parsed(alg.group(v), rest[1..]) else Failed(MissingRParen))
      case _ => Failed(UnexpectedToken)
  }

  datatype Outcome<+N> = Value(value: N) | Error(error: ParseError)

  function Parse<K, N>(alg: Algebra<K, N>, ts: seq<Token<K>>): Outcome<N> {
    if ts == [] then Error(EmptyExpression)
    else
      match Expression(alg, ts)
      case Failed(e) => Error(e)
      case Parsed(v, rest) => if rest == [] then Value(v) else Error(TrailingToken)
  }
}
