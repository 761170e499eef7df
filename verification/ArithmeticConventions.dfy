/**
 What the operators compute and how they group, with the parser's own results on the shortest texts that show
 it.
 */
module ArithmeticConventions {
  import opened Wrappers
  import opened ArithmeticGrammar
  import opened ArithmeticCorrect

  lemma ParsesTo<K(!new)>(arith: Arithmetic<K>, t: Tree<K>, ts: seq<Token<K>>)
    requires Derives(t, EXPR) && Yield(t) == ts
    ensures Parse(arith.Numbers(), ts)
            == (match Eval(arith.Numbers(), t) case None => Error(DivisionByZero) case Some(v) => Value(v))
  {
    ParseYield(arith.Numbers(), t);
  }

  lemma OperatorsMean<K(!new)>(a: Arithmetic<K>, x: K, y: K)
    ensures Parse(a.Numbers(), [Num(x), Plus, Num(y)]) == Value(a.add(x, y))
    ensures Parse(a.Numbers(), [Num(x), Minus, Num(y)]) == Value(a.sub(x, y))
    ensures Parse(a.Numbers(), [Num(x), Star, Num(y)]) == Value(a.mul(x, y))
    ensures Parse(a.Numbers(), [Num(x), Slash, Num(y)])
            == if a.isZero(y) then Error(DivisionByZero) else Value(a.div(x, y))
    ensures Parse(a.Numbers(), [Num(x), Caret, Num(y)]) == Value(a.pow(x, y))
    ensures Parse(a.Numbers(), [Minus, Num(x)]) == Value(a.neg(x))
    ensures Parse(a.Numbers(), [LParen, Num(x), RParen]) == Value(x)
  {
    hide Parse;
    ParsesTo(a, Bin(Add, Lit(x), Lit(y)), [Num(x), Plus, Num(y)]);
    ParsesTo(a, Bin(Sub, Lit(x), Lit(y)), [Num(x), Minus, Num(y)]);
    ParsesTo(a, Bin(Mul, Lit(x), Lit(y)), [Num(x), Star, Num(y)]);
    ParsesTo(a, Bin(Div, Lit(x), Lit(y)), [Num(x), Slash, Num(y)]);
    ParsesTo(a, Pow(Lit(x), Lit(y)), [Num(x), Caret, Num(y)]);
    ParsesTo(a, Neg(Lit(x)), [Minus, Num(x)]);
    ParsesTo(a, Paren(Lit(x)), [LParen, Num(x), RParen]);
  }

  lemma Pair<K(!new)>(a: Arithmetic<K>, op: Op, x: K, y: K)
    requires op == Div ==> !a.isZero(y)
    ensures Yield(Bin(op, Lit(x), Lit(y))) == [Num(x), op.Symbol(), Num(y)]
    ensures Eval(a.Numbers(), Bin(op, Lit(x), Lit(y))) == Some(a.Apply(op, x, y))
  {
    assert Eval(a.Numbers(), Lit(x)) == Some(x) && Eval(a.Numbers(), Lit(y)) == Some(y);
  }

  lemma PowerPair<K(!new)>(a: Arithmetic<K>, x: K, y: K)
    ensures Yield(Pow(Lit(x), Lit(y))) == [Num(x), Caret, Num(y)]
    ensures Eval(a.Numbers(), Pow(Lit(x), Lit(y))) == Some(a.pow(x, y))
  {
    assert Eval(a.Numbers(), Lit(x)) == Some(x) && Eval(a.Numbers(), Lit(y)) == Some(y);
  }

  /** Sums and quotients group to the left, and powers to the right. */
  lemma OperatorsGroup<K(!new)>(a: Arithmetic<K>, x: K, y: K, z: K)
    requires !a.isZero(y) && !a.isZero(z)
    ensures Parse(a.Numbers(), [Num(x), Minus, Num(y), Minus, Num(z)]) == Value(a.sub(a.sub(x, y), z))
    ensures Parse(a.Numbers(), [Num(x), Slash, Num(y), Slash, Num(z)]) == Value(a.div(a.div(x, y), z))
    ensures Parse(a.Numbers(), [Num(x), Caret, Num(y), Caret, Num(z)]) == Value(a.pow(x, a.pow(y, z)))
  {
    hide Parse;
    var l, m, n := Lit(x), Lit(y), Lit(z);
    Pair(a, Sub, x, y);
    ParsesTo(a, Bin(Sub, Bin(Sub, l, m), n), [Num(x), Minus, Num(y), Minus, Num(z)]);
    Pair(a, Div, x, y);
    ParsesTo(a, Bin(Div, Bin(Div, l, m), n), [Num(x), Slash, Num(y), Slash, Num(z)]);
    PowerPair(a, y, z);
    ParsesTo(a, Pow(l, Pow(m, n)), [Num(x), Caret, Num(y), Caret, Num(z)]);
  }

  /** A product binds more than a sum. */
  lemma ProductsBind<K(!new)>(a: Arithmetic<K>, x: K, y: K, z: K)
    ensures Parse(a.Numbers(), [Num(x), Plus, Num(y), Star, Num(z)]) == Value(a.add(x, a.mul(y, z)))
    ensures Parse(a.Numbers(), [Num(x), Star, Num(y), Plus, Num(z)]) == Value(a.add(a.mul(x, y), z))
  {
    hide Parse;
    var l, m, n := Lit(x), Lit(y), Lit(z);
    Pair(a, Mul, y, z);
    ParsesTo(a, Bin(Add, l, Bin(Mul, m, n)), [Num(x), Plus, Num(y), Star, Num(z)]);
    Pair(a, Mul, x, y);
    ParsesTo(a, Bin(Add, Bin(Mul, l, m), n), [Num(x), Star, Num(y), Plus, Num(z)]);
  }

  /** A power binds more than the sign before it, but not than the one in its exponent. */
  lemma PowersBind<K(!new)>(a: Arithmetic<K>, x: K, y: K)
    ensures Parse(a.Numbers(), [Minus, Num(x), Caret, Num(y)]) == Value(a.neg(a.pow(x, y)))
    ensures Parse(a.Numbers(), [Num(x), Caret, Minus, Num(y)]) == Value(a.pow(x, a.neg(y)))
  {
    hide Parse;
    var l, m := Lit(x), Lit(y);
    PowerPair(a, x, y);
    ParsesTo(a, Neg(Pow(l, m)), [Minus, Num(x), Caret, Num(y)]);
    assert Yield(Neg(m)) == [Minus, Num(y)];
    assert Eval(a.Numbers(), Neg(m)) == Some(a.neg(y)) by {
      assert Eval(a.Numbers(), m) == Some(y);
    }
    ParsesTo(a, Pow(l, Neg(m)), [Num(x), Caret, Minus, Num(y)]);
  }
}
