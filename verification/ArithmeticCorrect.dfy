/**
 What the parser computes: the value of the only derivation, or an error.
 */
module ArithmeticCorrect {
  import opened Wrappers
  import opened ArithmeticGrammar
  import opened ArithmeticSound
  import opened ArithmeticComplete

  lemma FreeEval<K>(t: Tree<K>)
    ensures Eval(FreeAlgebra(), t) == Some(t)
  {
  }

  /** Parsing the yield of a derivation gives the derivation's value, or reports its zero divisor. */
  lemma ParseYield<K(!new), N(!new)>(alg: Algebra<K, N>, t: Tree<K>)
    requires Derives(t, EXPR)
    ensures Parse(alg, Yield(t))
            == (match Eval(alg, t) case None => Error(DivisionByZero) case Some(v) => Value(v))
  {
    ExpressionComplete(alg, t, []);
    assert Yield(t) + [] == Yield(t);
  }

  /** No token list has two derivations. */
  lemma DerivationUnique<K(!new)>(t: Tree<K>, u: Tree<K>)
    requires Derives(t, EXPR) && Derives(u, EXPR) && Yield(t) == Yield(u)
    ensures t == u
  {
    ParseYield(FreeAlgebra(), t);
    ParseYield(FreeAlgebra(), u);
    FreeEval(t);
    FreeEval(u);
  }

  ghost predicate IsDerivation<K(!new)>(t: Tree<K>, ts: seq<Token<K>>) {
    Derives(t, EXPR) && Yield(t) == ts
  }

  /** A value is returned exactly for the token lists of the grammar without a zero divisor, and it is
      the value of the derivation. */
  lemma ParseCorrect<K(!new), N(!new)>(alg: Algebra<K, N>, ts: seq<Token<K>>, v: N)
    ensures Parse(alg, ts) == Value(v) <==> exists t :: IsDerivation(t, ts) && Eval(alg, t) == Some(v)
  {
    if Parse(alg, ts) == Value(v) {
      var t := ExpressionSound(alg, ts);
      assert Yield(t) + [] == Yield(t);
      assert IsDerivation(t, ts);
    }
    if t :| IsDerivation(t, ts) && Eval(alg, t) == Some(v) {
      ParseYield(alg, t);
    }
  }

  /** The remaining outcomes: division by zero for a derivation with a zero divisor; for token lists
      outside the grammar, always an error. */
  lemma ParseErrors<K(!new), N(!new)>(alg: Algebra<K, N>, ts: seq<Token<K>>)
    ensures (exists t :: IsDerivation(t, ts)) ==>
              (Parse(alg, ts).Error? <==> Parse(alg, ts) == Error(DivisionByZero))
    ensures (exists t :: IsDerivation(t, ts) && Eval(alg, t) == None) ==> Parse(alg, ts) == Error(DivisionByZero)
    ensures !(exists t :: IsDerivation(t, ts)) ==> Parse(alg, ts).Error?
  {
    if t :| IsDerivation(t, ts) {
      ParseYield(alg, t);
    }
    if t :| IsDerivation(t, ts) && Eval(alg, t) == None {
      ParseYield(alg, t);
    }
    if Parse(alg, ts).Value? {
      ParseCorrect(alg, ts, Parse(alg, ts).value);
    }
  }

  /** A zero divisor is reported as soon as its division is read: whatever follows the derivation,
      unless it is a power of the divisor, cannot turn the outcome into a syntax error. */
  lemma DivisionByZeroFirst<K(!new), N(!new)>(alg: Algebra<K, N>, t: Tree<K>, junk: seq<Token<K>>)
    requires Derives(t, EXPR) && Eval(alg, t) == None
    requires Settled(alg, t) || !StartsWith(junk, Caret)
    ensures Parse(alg, Yield(t) + junk) == Error(DivisionByZero)
  {
    ParseExtended(alg, t, junk);
    if !StartsWith(junk, Caret) {
      ExpressionComplete(alg, t, junk);
    }
  }

  /** It is reported whatever follows exactly when the divisor is not the last operand. */
  lemma DivisionByZeroSettled<K(!new), N(!new)>(alg: Algebra<K, N>, t: Tree<K>)
    requires Derives(t, EXPR)
    ensures (forall junk :: Parse(alg, Yield(t) + junk) == Error(DivisionByZero)) <==> Settled(alg, t)
  {
    if Settled(alg, t) {
      forall junk ensures Parse(alg, Yield(t) + junk) == Error(DivisionByZero) {
        ParseExtended(alg, t, junk);
      }
    } else {
      ParseExtended(alg, t, [Caret]);
    }
  }

  lemma ParseExtended<K(!new), N(!new)>(alg: Algebra<K, N>, t: Tree<K>, rest: seq<Token<K>>)
    requires Derives(t, EXPR)
    ensures Settled(alg, t) ==> Parse(alg, Yield(t) + rest) == Error(DivisionByZero)
    ensures !Settled(alg, t) && rest == [Caret] ==> Parse(alg, Yield(t) + rest) == Error(UnexpectedEnd)
  {
    ExpressionExtends(alg, t, rest);
  }
}
