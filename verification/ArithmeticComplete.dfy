/**
 Completeness of the recursive descent: every derivation is read, and a zero divisor is reported at once.
 */
module ArithmeticComplete {
  import opened Wrappers
  import opened ArithmeticGrammar
  import opened ArithmeticSound

  lemma {:induction false} ExpressionComplete<K(!new), N(!new)>(alg: Algebra<K, N>, t: Tree<K>, rest: seq<Token<K>>)
    requires Derives(t, EXPR) && !StartsWith(rest, Caret)
    ensures Eval(alg, t) == None ==> Expression(alg, Yield(t) + rest) == Failed(DivisionByZero)
    ensures Eval(alg, t).Some? && !StartsWith(rest, Star) && !StartsWith(rest, Slash)
            ==> Expression(alg, Yield(t) + rest) == ExpressionTail(alg, Eval(alg, t).value, rest)
    decreases t, 5
  {
    if t.Bin? && t.op.Additive() {
      var after := [t.op.Symbol()] + (Yield(t.right) + rest);
      YieldBin(t.op, t.left, t.right, rest);
      ExpressionComplete(alg, t.left, after);
      assert after[1..] == Yield(t.right) + rest;
      TermComplete(alg, t.right, rest);
    } else {
      TermComplete(alg, t, rest);
    }
  }

  lemma {:induction false} TermComplete<K(!new), N(!new)>(alg: Algebra<K, N>, t: Tree<K>, rest: seq<Token<K>>)
    requires Derives(t, TERM) && !StartsWith(rest, Caret)
    ensures Eval(alg, t) == None ==> Term(alg, Yield(t) + rest) == Failed(DivisionByZero)
    ensures Eval(alg, t).Some? ==> Term(alg, Yield(t) + rest) == TermTail(alg, Eval(alg, t).value, rest)
    decreases t, 4
  {
    if t.Bin? {
      var after := [t.op.Symbol()] + (Yield(t.right) + rest);
      YieldBin(t.op, t.left, t.right, rest);
      TermComplete(alg, t.left, after);
      assert after[1..] == Yield(t.right) + rest;
      UnaryComplete(alg, t.right, rest);
    } else {
      UnaryComplete(alg, t, rest);
    }
  }

  lemma {:induction false} UnaryComplete<K(!new), N(!new)>(alg: Algebra<K, N>, t: Tree<K>, rest: seq<Token<K>>)
    requires Derives(t, UNARY) && !StartsWith(rest, Caret)
    ensures Unary(alg, Yield(t) + rest)
            == (match Eval(alg, t) case None => Failed(DivisionByZero) case Some(v) => Parsed(v, rest))
    decreases t, 3
  {
    if t.Neg? {
      var after := Yield(t.arg) + rest;
      assert Yield(t) + rest == [Minus] + after;
      assert ([Minus] + after)[1..] == after;
      UnaryComplete(alg, t.arg, rest);
    } else {
      AtomFirst(t);
      assert (Yield(t) + rest)[0] == Yield(t)[0];
      PowerComplete(alg, t, rest);
    }
  }

  /** A derivation that is not a negation starts with a number or an opening parenthesis. */
  lemma {:induction false} AtomFirst<K(!new)>(t: Tree<K>)
    requires Derives(t, POWER)
    ensures Yield(t) != [] && (Yield(t)[0].Num? || Yield(t)[0].LParen?)
  {
    if t.Pow? {
      AtomFirst(t.base);
    }
  }

  lemma {:induction false} PowerComplete<K(!new), N(!new)>(alg: Algebra<K, N>, t: Tree<K>, rest: seq<Token<K>>)
    requires Derives(t, POWER) && !StartsWith(rest, Caret)
    ensures Power(alg, Yield(t) + rest)
            == (match Eval(alg, t) case None => Failed(DivisionByZero) case Some(v) => Parsed(v, rest))
    decreases t, 2
  {
    if t.Pow? {
      var after := [Caret] + (Yield(t.exponent) + rest);
      YieldPow(t.base, t.exponent, rest);
      AtomComplete(alg, t.base, after);
      assert after[1..] == Yield(t.exponent) + rest;
      UnaryComplete(alg, t.exponent, rest);
    } else {
      AtomComplete(alg, t, rest);
    }
  }

  lemma {:induction false} AtomComplete<K(!new), N(!new)>(alg: Algebra<K, N>, t: Tree<K>, rest: seq<Token<K>>)
    requires Derives(t, ATOM)
    ensures Atom(alg, Yield(t) + rest)
            == (match Eval(alg, t) case None => Failed(DivisionByZero) case Some(v) => Parsed(v, rest))
    decreases t, 1
  {
    if t.Paren? {
      var after := [RParen] + rest;
      assert (Yield(t) + rest)[1..] == Yield(t.inner) + after;
      ExpressionComplete(alg, t.inner, after);
      assert after[1..] == rest;
    } else {
      assert (Yield(t) + rest)[1..] == rest;
    }
  }

  // ----- A derivation with more text right behind it -----

  /** A zero divisor occurs before the last number or parenthesis, so that nothing that follows, not even
      a power of that last operand, can keep it from being reported. */
  predicate Settled<K, N>(alg: Algebra<K, N>, t: Tree<K>) {
    match t
    case Lit(_) => false
    case Paren(e) => Eval(alg, e) == None
    case Neg(e) => Settled(alg, e)
    case Pow(b, e) => Eval(alg, b) == None || Settled(alg, e)
    case Bin(_, l, r) => Eval(alg, l) == None || Settled(alg, r)
  }

  /** A settled derivation fails whatever follows; one that is not runs on into a caret. */
  ghost predicate Extends<K(!new), N(!new)>(alg: Algebra<K, N>, t: Tree<K>, rest: seq<Token<K>>, r: Step<K, N>) {
    && (Settled(alg, t) ==> r == Failed(DivisionByZero))
    && (!Settled(alg, t) && rest == [Caret] ==> r == Failed(UnexpectedEnd))
  }

  lemma {:induction false} ExpressionExtends<K(!new), N(!new)>(alg: Algebra<K, N>, t: Tree<K>, rest: seq<Token<K>>)
    requires Derives(t, EXPR)
    ensures Extends(alg, t, rest, Expression(alg, Yield(t) + rest))
    decreases t, 5
  {
    if t.Bin? && t.op.Additive() {
      var after := [t.op.Symbol()] + (Yield(t.right) + rest);
      YieldBin(t.op, t.left, t.right, rest);
      ExpressionComplete(alg, t.left, after);
      assert after[1..] == Yield(t.right) + rest;
      TermExtends(alg, t.right, rest);
    } else {
      TermExtends(alg, t, rest);
    }
  }

  lemma {:induction false} TermExtends<K(!new), N(!new)>(alg: Algebra<K, N>, t: Tree<K>, rest: seq<Token<K>>)
    requires Derives(t, TERM)
    ensures Extends(alg, t, rest, Term(alg, Yield(t) + rest))
    decreases t, 4
  {
    if t.Bin? {
      var after := [t.op.Symbol()] + (Yield(t.right) + rest);
      YieldBin(t.op, t.left, t.right, rest);
      TermComplete(alg, t.left, after);
      assert after[1..] == Yield(t.right) + rest;
      UnaryExtends(alg, t.right, rest);
    } else {
      UnaryExtends(alg, t, rest);
    }
  }

  lemma {:induction false} UnaryExtends<K(!new), N(!new)>(alg: Algebra<K, N>, t: Tree<K>, rest: seq<Token<K>>)
    requires Derives(t, UNARY)
    ensures Extends(alg, t, rest, Unary(alg, Yield(t) + rest))
    decreases t, 3
  {
    if t.Neg? {
      var after := Yield(t.arg) + rest;
      assert Yield(t) + rest == [Minus] + after;
      assert ([Minus] + after)[1..] == after;
      UnaryExtends(alg, t.arg, rest);
    } else {
      AtomFirst(t);
      assert (Yield(t) + rest)[0] == Yield(t)[0];
      PowerExtends(alg, t, rest);
    }
  }

  lemma {:induction false} PowerExtends<K(!new), N(!new)>(alg: Algebra<K, N>, t: Tree<K>, rest: seq<Token<K>>)
    requires Derives(t, POWER)
    ensures Extends(alg, t, rest, Power(alg, Yield(t) + rest))
    decreases t, 2
  {
    if t.Pow? {
      var after := [Caret] + (Yield(t.exponent) + rest);
      YieldPow(t.base, t.exponent, rest);
      AtomComplete(alg, t.base, after);
      assert after[1..] == Yield(t.exponent) + rest;
      UnaryExtends(alg, t.exponent, rest);
    } else {
      AtomComplete(alg, t, rest);
      NothingToRead(alg);
      assert rest == [Caret] ==> rest[1..] == [];
    }
  }

  lemma NothingToRead<K(!new), N(!new)>(alg: Algebra<K, N>)
    ensures Unary(alg, []) == Failed(UnexpectedEnd)
  {
    assert Atom(alg, []) == Failed(UnexpectedEnd);
  }
}
