/**
 Soundness of the recursive descent: whatever a level reads is the yield of a derivation of that level
 whose value is the value returned.
 */
module ArithmeticSound {
  import opened Wrappers
  import opened ArithmeticGrammar

  lemma YieldBin<K>(op: Op, l: Tree<K>, r: Tree<K>, rest: seq<Token<K>>)
    ensures Yield(Bin(op, l, r)) + rest == Yield(l) + ([op.Symbol()] + (Yield(r) + rest))
  {
  }

  lemma YieldPow<K>(b: Tree<K>, e: Tree<K>, rest: seq<Token<K>>)
    ensures Yield(Pow(b, e)) + rest == Yield(b) + ([Caret] + (Yield(e) + rest))
  {
  }

  lemma YieldParen<K>(e: Tree<K>, rest: seq<Token<K>>)
    ensures Yield(Paren(e)) + rest == [LParen] + (Yield(e) + ([RParen] + rest))
  {
  }

  lemma HeadTail<K>(ts: seq<Token<K>>)
    requires ts != []
    ensures ts == [ts[0]] + ts[1..]
  {
  }

  lemma OperandRead<K>(op: Op, l: Tree<K>, r: Tree<K>, ts: seq<Token<K>>, rest: seq<Token<K>>)
    requires ts != [] && ts[0] == op.Symbol() && ts[1..] == Yield(r) + rest
    ensures Yield(l) + ts == Yield(Bin(op, l, r)) + rest
  {
    HeadTail(ts);
    YieldBin(op, l, r, rest);
  }

  // ----- One lemma for each level -----

  /** `t` derives, at `level`, exactly the tokens read, and has the value returned. */
  ghost predicate Explains<K(!new), N(!new)>(
    alg: Algebra<K, N>, t: Tree<K>, level: nat, ts: seq<Token<K>>, r: Step<K, N>)
  {
    r.Parsed? && Derives(t, level) && ts == Yield(t) + r.rest && Eval(alg, t) == Some(r.value)
  }

  lemma {:induction false} ExpressionSound<K(!new), N(!new)>(alg: Algebra<K, N>, ts: seq<Token<K>>) returns (t: Tree<K>)
    requires Expression(alg, ts).Parsed?
    ensures Explains(alg, t, EXPR, ts, Expression(alg, ts))
    decreases |ts|, 5
  {
    var l := TermSound(alg, ts);
    var first := Term(alg, ts);
    t := ExpressionTailSound(alg, l, first.value, first.rest);
  }

  /** One turn of the loop: the operator and its right operand join the derivation read so far. */
  lemma {:induction false} ExpressionStep<K(!new), N(!new)>(alg: Algebra<K, N>, l: Tree<K>, v: N, ts: seq<Token<K>>)
      returns (grown: Tree<K>, total: N, rest: seq<Token<K>>)
    requires Derives(l, EXPR) && Eval(alg, l) == Some(v)
    requires ts != [] && (ts[0].Plus? || ts[0].Minus?) && Term(alg, ts[1..]).Parsed?
    ensures Derives(grown, EXPR) && Eval(alg, grown) == Some(total)
    ensures |rest| < |ts| && Yield(l) + ts == Yield(grown) + rest
    ensures ExpressionTail(alg, v, ts) == ExpressionTail(alg, total, rest)
    decreases |ts|, 6
  {
    var r := TermSound(alg, ts[1..]);
    var op := if ts[0].Plus? then Add else Sub;
    rest := Term(alg, ts[1..]).rest;
    grown, total := Bin(op, l, r), alg.bin(op, v, Term(alg, ts[1..]).value);
    OperandRead(op, l, r, ts, rest);
  }

  lemma {:induction false} ExpressionTailSound<K(!new), N(!new)>(
      alg: Algebra<K, N>, l: Tree<K>, v: N, ts: seq<Token<K>>)
      returns (t: Tree<K>)
    requires Derives(l, EXPR) && Eval(alg, l) == Some(v) && ExpressionTail(alg, v, ts).Parsed?
    ensures Explains(alg, t, EXPR, Yield(l) + ts, ExpressionTail(alg, v, ts))
    decreases |ts|, 7
  {
    if ts == [] || !(ts[0].Plus? || ts[0].Minus?) {
      t := l;
    } else {
      var grown, total, rest := ExpressionStep(alg, l, v, ts);
      t := ExpressionTailSound(alg, grown, total, rest);
    }
  }

  lemma {:induction false} TermSound<K(!new), N(!new)>(alg: Algebra<K, N>, ts: seq<Token<K>>) returns (t: Tree<K>)
    requires Term(alg, ts).Parsed?
    ensures Explains(alg, t, TERM, ts, Term(alg, ts))
    decreases |ts|, 3
  {
    var l := UnarySound(alg, ts);
    var first := Unary(alg, ts);
    t := TermTailSound(alg, l, first.value, first.rest);
  }

  /** One turn of the loop: the operator and its right operand join the derivation read so far. */
  lemma {:induction false} TermStep<K(!new), N(!new)>(alg: Algebra<K, N>, l: Tree<K>, v: N, ts: seq<Token<K>>)
      returns (grown: Tree<K>, total: N, rest: seq<Token<K>>)
    requires Derives(l, TERM) && Eval(alg, l) == Some(v)
    requires ts != [] && (ts[0].Star? || ts[0].Slash?) && Unary(alg, ts[1..]).Parsed?
    requires ts[0].Slash? ==> !alg.isZero(Unary(alg, ts[1..]).value)
    ensures Derives(grown, TERM) && Eval(alg, grown) == Some(total)
    ensures |rest| < |ts| && Yield(l) + ts == Yield(grown) + rest
    ensures TermTail(alg, v, ts) == TermTail(alg, total, rest)
    decreases |ts|, 4
  {
    var r := UnarySound(alg, ts[1..]);
    var op := if ts[0].Star? then Mul else Div;
    rest := Unary(alg, ts[1..]).rest;
    grown, total := Bin(op, l, r), alg.bin(op, v, Unary(alg, ts[1..]).value);
    OperandRead(op, l, r, ts, rest);
  }

  lemma {:induction false} TermTailSound<K(!new), N(!new)>(alg: Algebra<K, N>, l: Tree<K>, v: N, ts: seq<Token<K>>)
      returns (t: Tree<K>)
    requires Derives(l, TERM) && Eval(alg, l) == Some(v) && TermTail(alg, v, ts).Parsed?
    ensures Explains(alg, t, TERM, Yield(l) + ts, TermTail(alg, v, ts))
    decreases |ts|, 5
  {
    if ts == [] || !(ts[0].Star? || ts[0].Slash?) {
      t := l;
    } else {
      var grown, total, rest := TermStep(alg, l, v, ts);
      t := TermTailSound(alg, grown, total, rest);
    }
  }

  lemma {:induction false} UnarySound<K(!new), N(!new)>(alg: Algebra<K, N>, ts: seq<Token<K>>) returns (t: Tree<K>)
    requires Unary(alg, ts).Parsed?
    ensures Explains(alg, t, UNARY, ts, Unary(alg, ts))
    decreases |ts|, 2
  {
    if ts != [] && ts[0].Minus? {
      var e := UnarySound(alg, ts[1..]);
      t := Neg(e);
      assert ts == [Minus] + ts[1..];
    } else {
      t := PowerSound(alg, ts);
    }
  }

  lemma {:induction false} PowerSound<K(!new), N(!new)>(alg: Algebra<K, N>, ts: seq<Token<K>>) returns (t: Tree<K>)
    requires Power(alg, ts).Parsed?
    ensures Explains(alg, t, POWER, ts, Power(alg, ts))
    decreases |ts|, 1
  {
    var b := AtomSound(alg, ts);
    var rest := Atom(alg, ts).rest;
    if rest != [] && rest[0].Caret? {
      var e := UnarySound(alg, rest[1..]);
      t := Pow(b, e);
      HeadTail(rest);
      YieldPow(b, e, Power(alg, ts).rest);
    } else {
      t := b;
    }
  }

  lemma {:induction false} AtomSound<K(!new), N(!new)>(alg: Algebra<K, N>, ts: seq<Token<K>>) returns (t: Tree<K>)
    requires Atom(alg, ts).Parsed?
    ensures Explains(alg, t, ATOM, ts, Atom(alg, ts))
    decreases |ts|, 0
  {
    HeadTail(ts);
    if ts[0].Num? {
      t := Lit(ts[0].value);
    } else {
      var e := ExpressionSound(alg, ts[1..]);
      t := Paren(e);
      var rest := Expression(alg, ts[1..]).rest;
      HeadTail(rest);
      YieldParen(e, rest[1..]);
    }
  }
}
