/**
 Which error the parser reports, for every token list: a division by zero exactly when a division has been
 read whose divisor is zero, and otherwise what a scan from left to right finds that knows only whether an
 operand is due and how many parentheses are open.
 */
module ArithmeticErrors {
  import opened Wrappers
  import opened ArithmeticGrammar
  import opened ArithmeticSound
  import opened ArithmeticComplete

  // ----- Divisions by zero -----

  /** Within the first `n` tokens of the derivation some division has been read, and its divisor is zero. */
  predicate ZeroWithin<K, N>(alg: Algebra<K, N>, t: Tree<K>, n: int) {
    match t
    case Lit(_) => false
    case Paren(e) => ZeroWithin(alg, e, n - 1)
    case Neg(e) => ZeroWithin(alg, e, n - 1)
    case Pow(b, e) => ZeroWithin(alg, b, n) || ZeroWithin(alg, e, n - |Yield(b)| - 1)
    case Bin(op, l, r) =>
      ZeroWithin(alg, l, n) || ZeroWithin(alg, r, n - |Yield(l)| - 1)
      || (op == Div && n >= |Yield(t)| && Eval(alg, r).Some? && alg.isZero(Eval(alg, r).value))
  }

  lemma {:induction false} ZeroNeedsTokens<K(!new), N(!new)>(alg: Algebra<K, N>, t: Tree<K>, n: int)
    requires ZeroWithin(alg, t, n)
    ensures n > 0
  {
    match t
    case Lit(_) =>
    case Paren(e) => ZeroNeedsTokens(alg, e, n - 1);
    case Neg(e) => ZeroNeedsTokens(alg, e, n - 1);
    case Pow(b, e) =>
      if ZeroWithin(alg, b, n) {
        ZeroNeedsTokens(alg, b, n);
      } else {
        ZeroNeedsTokens(alg, e, n - |Yield(b)| - 1);
      }
    case Bin(op, l, r) =>
      if ZeroWithin(alg, l, n) {
        ZeroNeedsTokens(alg, l, n);
      } else if ZeroWithin(alg, r, n - |Yield(l)| - 1) {
        ZeroNeedsTokens(alg, r, n - |Yield(l)| - 1);
      }
  }

  /** In all its tokens a derivation has a zero divisor exactly when it has no value. */
  lemma {:induction false} ZeroInAll<K(!new), N(!new)>(alg: Algebra<K, N>, t: Tree<K>, n: int)
    requires n >= |Yield(t)|
    ensures ZeroWithin(alg, t, n) <==> Eval(alg, t) == None
  {
    match t
    case Lit(_) =>
    case Paren(e) => ZeroInAll(alg, e, n - 1);
    case Neg(e) => ZeroInAll(alg, e, n - 1);
    case Pow(b, e) =>
      ZeroInAll(alg, b, n);
      ZeroInAll(alg, e, n - |Yield(b)| - 1);
    case Bin(op, l, r) =>
      ZeroInAll(alg, l, n);
      ZeroInAll(alg, r, n - |Yield(l)| - 1);
  }

  /** The list begins like the derivation for `n` tokens, which a caret does not follow, and a division by
      zero is read in them. */
  ghost predicate DividesByZero<K(!new), N(!new)>(alg: Algebra<K, N>, ts: seq<Token<K>>, t: Tree<K>, n: int) {
    0 <= n <= |ts| && n <= |Yield(t)| && ts[..n] == Yield(t)[..n] && !StartsWith(ts[n..], Caret)
    && ZeroWithin(alg, t, n)
  }

  // ----- It is reported -----

  lemma CutBin<K>(op: Op, l: Tree<K>, r: Tree<K>, n: int, rest: seq<Token<K>>)
    requires |Yield(l)| < n <= |Yield(Bin(op, l, r))|
    ensures Yield(Bin(op, l, r))[..n] + rest
            == Yield(l) + ([op.Symbol()] + (Yield(r)[..n - |Yield(l)| - 1] + rest))
  {
  }

  lemma CutPow<K>(b: Tree<K>, e: Tree<K>, n: int, rest: seq<Token<K>>)
    requires |Yield(b)| < n <= |Yield(Pow(b, e))|
    ensures Yield(Pow(b, e))[..n] + rest == Yield(b) + ([Caret] + (Yield(e)[..n - |Yield(b)| - 1] + rest))
  {
  }

  lemma CutParen<K>(e: Tree<K>, n: int, rest: seq<Token<K>>)
    requires 0 < n <= |Yield(Paren(e))|
    ensures var ts := Yield(Paren(e))[..n] + rest;
            && ts[0] == LParen
            && ts[1..] == if n - 1 <= |Yield(e)| then Yield(e)[..n - 1] + rest else Yield(e) + ([RParen] + rest)
  {
    var y := Yield(e);
    assert Yield(Paren(e)) == [LParen] + (y + [RParen]);
    if n - 1 <= |y| {
      assert (y + [RParen])[..n - 1] == y[..n - 1];
    }
  }

  lemma {:induction false} ExpressionReports<K(!new), N(!new)>(
    alg: Algebra<K, N>, t: Tree<K>, n: int, rest: seq<Token<K>>)
    requires Derives(t, EXPR) && 0 <= n <= |Yield(t)| && ZeroWithin(alg, t, n) && !StartsWith(rest, Caret)
    ensures Expression(alg, Yield(t)[..n] + rest) == Failed(DivisionByZero)
    decreases t, 5
  {
    if t.Bin? && t.op.Additive() {
      var k := n - |Yield(t.left)| - 1;
      if k < 0 {
        OnlyLeft(alg, t, n);
        ExpressionReports(alg, t.left, n, rest);
        assert Yield(t)[..n] == Yield(t.left)[..n];
      } else {
        var after := [t.op.Symbol()] + (Yield(t.right)[..k] + rest);
        CutBin(t.op, t.left, t.right, n, rest);
        ExpressionComplete(alg, t.left, after);
        assert after[1..] == Yield(t.right)[..k] + rest;
        ZeroInAll(alg, t.left, n);
        if Eval(alg, t.left).Some? {
          TermReports(alg, t.right, k, rest);
        }
      }
    } else {
      TermReports(alg, t, n, rest);
    }
  }

  lemma OnlyLeft<K(!new), N(!new)>(alg: Algebra<K, N>, t: Tree<K>, n: int)
    requires t.Bin? && ZeroWithin(alg, t, n) && n <= |Yield(t.left)|
    ensures ZeroWithin(alg, t.left, n)
  {
    if ZeroWithin(alg, t.right, n - |Yield(t.left)| - 1) {
      ZeroNeedsTokens(alg, t.right, n - |Yield(t.left)| - 1);
    }
  }

  lemma {:induction false} TermReports<K(!new), N(!new)>(
    alg: Algebra<K, N>, t: Tree<K>, n: int, rest: seq<Token<K>>)
    requires Derives(t, TERM) && 0 <= n <= |Yield(t)| && ZeroWithin(alg, t, n) && !StartsWith(rest, Caret)
    ensures Term(alg, Yield(t)[..n] + rest) == Failed(DivisionByZero)
    decreases t, 4
  {
    if t.Bin? {
      var k := n - |Yield(t.left)| - 1;
      if k < 0 {
        OnlyLeft(alg, t, n);
        TermReports(alg, t.left, n, rest);
        assert Yield(t)[..n] == Yield(t.left)[..n];
      } else {
        var after := [t.op.Symbol()] + (Yield(t.right)[..k] + rest);
        CutBin(t.op, t.left, t.right, n, rest);
        TermComplete(alg, t.left, after);
        assert after[1..] == Yield(t.right)[..k] + rest;
        ZeroInAll(alg, t.left, n);
        if Eval(alg, t.left).Some? {
          if ZeroWithin(alg, t.right, k) {
            UnaryReports(alg, t.right, k, rest);
          } else {
            assert Yield(t.right)[..k] == Yield(t.right);
            UnaryComplete(alg, t.right, rest);
          }
        }
      }
    } else {
      UnaryReports(alg, t, n, rest);
    }
  }

  lemma {:induction false} UnaryReports<K(!new), N(!new)>(
    alg: Algebra<K, N>, t: Tree<K>, n: int, rest: seq<Token<K>>)
    requires Derives(t, UNARY) && 0 <= n <= |Yield(t)| && ZeroWithin(alg, t, n) && !StartsWith(rest, Caret)
    ensures Unary(alg, Yield(t)[..n] + rest) == Failed(DivisionByZero)
    decreases t, 3
  {
    ZeroNeedsTokens(alg, t, n);
    if t.Neg? {
      var after := Yield(t.arg)[..n - 1] + rest;
      ZeroNeedsTokens(alg, t.arg, n - 1);
      assert Yield(t)[..n] + rest == [Minus] + after;
      assert ([Minus] + after)[1..] == after;
      UnaryReports(alg, t.arg, n - 1, rest);
    } else {
      AtomFirst(t);
      assert (Yield(t)[..n] + rest)[0] == Yield(t)[0];
      PowerReports(alg, t, n, rest);
    }
  }

  lemma {:induction false} PowerReports<K(!new), N(!new)>(
    alg: Algebra<K, N>, t: Tree<K>, n: int, rest: seq<Token<K>>)
    requires Derives(t, POWER) && 0 <= n <= |Yield(t)| && ZeroWithin(alg, t, n) && !StartsWith(rest, Caret)
    ensures Power(alg, Yield(t)[..n] + rest) == Failed(DivisionByZero)
    decreases t, 2
  {
    if t.Pow? {
      var k := n - |Yield(t.base)| - 1;
      if k < 0 {
        if ZeroWithin(alg, t.exponent, k) {
          ZeroNeedsTokens(alg, t.exponent, k);
        }
        AtomReports(alg, t.base, n, rest);
        assert Yield(t)[..n] == Yield(t.base)[..n];
      } else {
        var after := [Caret] + (Yield(t.exponent)[..k] + rest);
        CutPow(t.base, t.exponent, n, rest);
        AtomComplete(alg, t.base, after);
        assert after[1..] == Yield(t.exponent)[..k] + rest;
        ZeroInAll(alg, t.base, n);
        if Eval(alg, t.base).Some? {
          UnaryReports(alg, t.exponent, k, rest);
        }
      }
    } else {
      AtomReports(alg, t, n, rest);
    }
  }

  lemma {:induction false} AtomReports<K(!new), N(!new)>(
    alg: Algebra<K, N>, t: Tree<K>, n: int, rest: seq<Token<K>>)
    requires Derives(t, ATOM) && 0 <= n <= |Yield(t)| && ZeroWithin(alg, t, n) && !StartsWith(rest, Caret)
    ensures Atom(alg, Yield(t)[..n] + rest) == Failed(DivisionByZero)
    decreases t, 1
  {
    ZeroNeedsTokens(alg, t, n);
    CutParen(t.inner, n, rest);
    var ts := Yield(t)[..n] + rest;
    if n - 1 <= |Yield(t.inner)| {
      ExpressionReports(alg, t.inner, n - 1, rest);
    } else {
      ZeroInAll(alg, t.inner, n - 1);
      ExpressionComplete(alg, t.inner, [RParen] + rest);
    }
    hide Yield, Expression;
    assert ts[0] == LParen && Expression(alg, ts[1..]) == Failed(DivisionByZero);
  }

  // ----- Nothing else is reported as one -----

  lemma SameAfter<T>(before: seq<T>, s: seq<T>, y: seq<T>, n: int)
    requires 0 <= n <= |s| && n <= |y| && s[..n] == y[..n]
    ensures (before + s)[..|before| + n] == (before + y)[..|before| + n]
    ensures (before + s)[|before| + n..] == s[n..]
  {
    assert (before + s)[..|before| + n] == before + s[..n] && (before + y)[..|before| + n] == before + y[..n];
  }

  /** The operand on the right fails, so the whole does, as far in. */
  lemma ZeroOnRight<K(!new), N(!new)>(
    alg: Algebra<K, N>, op: Op, l: Tree<K>, r: Tree<K>, ts: seq<Token<K>>, n: int)
    requires ts != [] && ts[0] == op.Symbol() && DividesByZero(alg, ts[1..], r, n)
    ensures DividesByZero(alg, Yield(l) + ts, Bin(op, l, r), |Yield(l)| + 1 + n)
  {
    var before := Yield(l) + [op.Symbol()];
    assert Yield(l) + ts == before + ts[1..] && Yield(Bin(op, l, r)) == before + Yield(r);
    SameAfter(before, ts[1..], Yield(r), n);
    hide Yield;
  }

  lemma {:induction false} ExpressionBlames<K(!new), N(!new)>(alg: Algebra<K, N>, ts: seq<Token<K>>)
      returns (t: Tree<K>, n: int)
    requires Expression(alg, ts) == Failed(DivisionByZero)
    ensures Derives(t, EXPR) && DividesByZero(alg, ts, t, n)
    decreases |ts|, 5
  {
    if Term(alg, ts).Failed? {
      t, n := TermBlames(alg, ts);
    } else {
      var l := TermSound(alg, ts);
      t, n := ExpressionTailBlames(alg, l, Term(alg, ts).value, Term(alg, ts).rest);
    }
  }

  lemma {:induction false} ExpressionTailBlames<K(!new), N(!new)>(
    alg: Algebra<K, N>, l: Tree<K>, v: N, ts: seq<Token<K>>)
      returns (t: Tree<K>, n: int)
    requires Derives(l, EXPR) && Eval(alg, l) == Some(v) && ExpressionTail(alg, v, ts) == Failed(DivisionByZero)
    ensures Derives(t, EXPR) && DividesByZero(alg, Yield(l) + ts, t, n)
    decreases |ts|, 7
  {
    if Term(alg, ts[1..]).Failed? {
      var r, k := TermBlames(alg, ts[1..]);
      var op := if ts[0].Plus? then Add else Sub;
      ZeroOnRight(alg, op, l, r, ts, k);
      t, n := Bin(op, l, r), |Yield(l)| + 1 + k;
    } else {
      var grown, total, rest := ExpressionStep(alg, l, v, ts);
      t, n := ExpressionTailBlames(alg, grown, total, rest);
    }
  }

  lemma {:induction false} TermBlames<K(!new), N(!new)>(alg: Algebra<K, N>, ts: seq<Token<K>>)
      returns (t: Tree<K>, n: int)
    requires Term(alg, ts) == Failed(DivisionByZero)
    ensures Derives(t, TERM) && DividesByZero(alg, ts, t, n)
    decreases |ts|, 3
  {
    if Unary(alg, ts).Failed? {
      t, n := UnaryBlames(alg, ts);
    } else {
      var l := UnarySound(alg, ts);
      t, n := TermTailBlames(alg, l, Unary(alg, ts).value, Unary(alg, ts).rest);
    }
  }

  lemma {:induction false} TermTailBlames<K(!new), N(!new)>(
    alg: Algebra<K, N>, l: Tree<K>, v: N, ts: seq<Token<K>>)
      returns (t: Tree<K>, n: int)
    requires Derives(l, TERM) && Eval(alg, l) == Some(v) && TermTail(alg, v, ts) == Failed(DivisionByZero)
    ensures Derives(t, TERM) && DividesByZero(alg, Yield(l) + ts, t, n)
    decreases |ts|, 5
  {
    var op := if ts[0].Star? then Mul else Div;
    if Unary(alg, ts[1..]).Failed? {
      var r, k := UnaryBlames(alg, ts[1..]);
      ZeroOnRight(alg, op, l, r, ts, k);
      t, n := Bin(op, l, r), |Yield(l)| + 1 + k;
    } else if ts[0].Slash? && alg.isZero(Unary(alg, ts[1..]).value) {
      var r := UnarySound(alg, ts[1..]);
      var rest := Unary(alg, ts[1..]).rest;
      OperandRead(op, l, r, ts, rest);
      UnaryStops(alg, ts[1..]);
      t, n := Bin(op, l, r), |Yield(Bin(op, l, r))|;
      assert (Yield(l) + ts)[n..] == rest && (Yield(l) + ts)[..n] == Yield(t);
    } else {
      var grown, total, rest := TermStep(alg, l, v, ts);
      t, n := TermTailBlames(alg, grown, total, rest);
    }
  }

  /** An operand takes every power that follows it. */
  lemma {:induction false} UnaryStops<K(!new), N(!new)>(alg: Algebra<K, N>, ts: seq<Token<K>>)
    requires Unary(alg, ts).Parsed?
    ensures !StartsWith(Unary(alg, ts).rest, Caret)
    decreases |ts|
  {
    if ts != [] && ts[0].Minus? {
      UnaryStops(alg, ts[1..]);
    } else {
      var rest := Atom(alg, ts).rest;
      if rest != [] && rest[0].Caret? {
        UnaryStops(alg, rest[1..]);
      }
    }
  }

  lemma {:induction false} UnaryBlames<K(!new), N(!new)>(alg: Algebra<K, N>, ts: seq<Token<K>>)
      returns (t: Tree<K>, n: int)
    requires Unary(alg, ts) == Failed(DivisionByZero)
    ensures Derives(t, UNARY) && DividesByZero(alg, ts, t, n)
    decreases |ts|, 2
  {
    if ts != [] && ts[0].Minus? {
      var e, k := UnaryBlames(alg, ts[1..]);
      t, n := Neg(e), k + 1;
      HeadTail(ts);
      SameAfter([Minus], ts[1..], Yield(e), k);
    } else {
      t, n := PowerBlames(alg, ts);
    }
  }

  lemma {:induction false} PowerBlames<K(!new), N(!new)>(alg: Algebra<K, N>, ts: seq<Token<K>>)
      returns (t: Tree<K>, n: int)
    requires Power(alg, ts) == Failed(DivisionByZero)
    ensures Derives(t, POWER) && DividesByZero(alg, ts, t, n)
    decreases |ts|, 1
  {
    if Atom(alg, ts).Failed? {
      t, n := AtomBlames(alg, ts);
    } else {
      var b := AtomSound(alg, ts);
      var rest := Atom(alg, ts).rest;
      var e, k := UnaryBlames(alg, rest[1..]);
      t, n := Pow(b, e), |Yield(b)| + 1 + k;
      var before := Yield(b) + [Caret];
      assert ts == before + rest[1..] && Yield(t) == before + Yield(e);
      SameAfter(before, rest[1..], Yield(e), k);
      hide Yield, Power;
    }
  }

  lemma {:induction false} AtomBlames<K(!new), N(!new)>(alg: Algebra<K, N>, ts: seq<Token<K>>)
      returns (t: Tree<K>, n: int)
    requires Atom(alg, ts) == Failed(DivisionByZero)
    ensures Derives(t, ATOM) && DividesByZero(alg, ts, t, n)
    decreases |ts|, 0
  {
    var e, k := ExpressionBlames(alg, ts[1..]);
    t, n := Paren(e), k + 1;
    HeadTail(ts);
    assert Yield(t)[..n] == ([LParen] + Yield(e))[..n];
    SameAfter([LParen], ts[1..], Yield(e), k);
  }

  /** Division by zero is reported exactly when one was read: some beginning of the list, which a caret does
      not follow, begins a derivation too, and in it a divisor evaluates to zero. */
  lemma DivisionByZeroExactly<K(!new), N(!new)>(alg: Algebra<K, N>, ts: seq<Token<K>>)
    ensures Parse(alg, ts) == Error(DivisionByZero)
            <==> exists t, n :: Derives(t, EXPR) && DividesByZero(alg, ts, t, n)
  {
    if Parse(alg, ts) == Error(DivisionByZero) {
      var t, n := ExpressionBlames(alg, ts);
    }
    if t, n :| Derives(t, EXPR) && DividesByZero(alg, ts, t, n) {
      ZeroNeedsTokens(alg, t, n);
      ExpressionReports(alg, t, n, ts[n..]);
      assert Yield(t)[..n] + ts[n..] == ts;
    }
  }

  // ----- Syntax errors -----

  /** What is wrong with the tokens, read from left to right: `operand` says that an operand is due, and
      `open` counts the parentheses open. */
  function Fault<K>(operand: bool, open: nat, ts: seq<Token<K>>): Option<ParseError>
    decreases |ts|
  {
    if operand then
      if ts == [] then Some(UnexpectedEnd)
      else
        match ts[0]
        case Num(_) => Fault(false, open, ts[1..])
        case LParen => Fault(true, open + 1, ts[1..])
        case Minus => Fault(true, open, ts[1..])
        case _ => Some(UnexpectedToken)
    else if ts == [] then if open == 0 then None else Some(MissingRParen)
    else
      match ts[0]
      case Num(_) => Some(if open == 0 then TrailingToken else MissingRParen)
      case LParen => Some(if open == 0 then TrailingToken else MissingRParen)
      case RParen => if open == 0 then Some(TrailingToken) else Fault(false, open - 1, ts[1..])
      case _ => Fault(true, open, ts[1..])
  }

  /** A level that reads an operand leaves the scan where an operator is due, and one that fails otherwise
      than by dividing fails as the scan does. */
  ghost predicate Scanned<K(!new), N(!new)>(r: Step<K, N>, open: nat, ts: seq<Token<K>>) {
    (r.Parsed? ==> Fault(true, open, ts) == Fault(false, open, r.rest))
    && (r.Failed? && r.error != DivisionByZero ==> Fault(true, open, ts) == Some(r.error))
  }

  ghost predicate Operator<K(!new)>(ts: seq<Token<K>>) {
    ts != [] && (ts[0].Plus? || ts[0].Minus? || ts[0].Star? || ts[0].Slash? || ts[0].Caret?)
  }

  lemma {:induction false} ExpressionScanned<K(!new), N(!new)>(alg: Algebra<K, N>, open: nat, ts: seq<Token<K>>)
    ensures Scanned(Expression(alg, ts), open, ts)
    ensures Expression(alg, ts).Parsed? ==> !Operator(Expression(alg, ts).rest)
    decreases |ts|, 5
  {
    TermScanned(alg, open, ts);
    if Term(alg, ts).Parsed? {
      ExpressionTailScanned(alg, Term(alg, ts).value, open, Term(alg, ts).rest);
    }
  }

  lemma {:induction false} ExpressionTailScanned<K(!new), N(!new)>(
    alg: Algebra<K, N>, v: N, open: nat, ts: seq<Token<K>>)
    requires !StartsWith(ts, Star) && !StartsWith(ts, Slash) && !StartsWith(ts, Caret)
    ensures var r := ExpressionTail(alg, v, ts);
            && (r.Parsed? ==> Fault(false, open, ts) == Fault(false, open, r.rest) && !Operator(r.rest))
            && (r.Failed? && r.error != DivisionByZero ==> Fault(false, open, ts) == Some(r.error))
    decreases |ts|, 6
  {
    if ts != [] && (ts[0].Plus? || ts[0].Minus?) {
      TermScanned(alg, open, ts[1..]);
      if Term(alg, ts[1..]).Parsed? {
        var w, rest := Term(alg, ts[1..]).value, Term(alg, ts[1..]).rest;
        ExpressionTailScanned(alg, alg.bin(if ts[0].Plus? then Add else Sub, v, w), open, rest);
      }
    }
  }

  lemma {:induction false} TermScanned<K(!new), N(!new)>(alg: Algebra<K, N>, open: nat, ts: seq<Token<K>>)
    ensures Scanned(Term(alg, ts), open, ts)
    ensures var r := Term(alg, ts);
            r.Parsed? ==> !StartsWith(r.rest, Star) && !StartsWith(r.rest, Slash) && !StartsWith(r.rest, Caret)
    decreases |ts|, 3
  {
    UnaryScanned(alg, open, ts);
    if Unary(alg, ts).Parsed? {
      UnaryStops(alg, ts);
      TermTailScanned(alg, Unary(alg, ts).value, open, Unary(alg, ts).rest);
    }
  }

  lemma {:induction false} TermTailScanned<K(!new), N(!new)>(
    alg: Algebra<K, N>, v: N, open: nat, ts: seq<Token<K>>)
    requires !StartsWith(ts, Caret)
    ensures var r := TermTail(alg, v, ts);
            && (r.Parsed? ==>
                  Fault(false, open, ts) == Fault(false, open, r.rest)
                  && !StartsWith(r.rest, Star) && !StartsWith(r.rest, Slash) && !StartsWith(r.rest, Caret))
            && (r.Failed? && r.error != DivisionByZero ==> Fault(false, open, ts) == Some(r.error))
    decreases |ts|, 4
  {
    if ts != [] && (ts[0].Star? || ts[0].Slash?) {
      UnaryScanned(alg, open, ts[1..]);
      if Unary(alg, ts[1..]).Parsed? {
        UnaryStops(alg, ts[1..]);
        var w, rest := Unary(alg, ts[1..]).value, Unary(alg, ts[1..]).rest;
        TermTailScanned(alg, alg.bin(if ts[0].Star? then Mul else Div, v, w), open, rest);
      }
    }
  }

  lemma {:induction false} UnaryScanned<K(!new), N(!new)>(alg: Algebra<K, N>, open: nat, ts: seq<Token<K>>)
    ensures Scanned(Unary(alg, ts), open, ts)
    decreases |ts|, 2
  {
    if ts != [] && ts[0].Minus? {
      UnaryScanned(alg, open, ts[1..]);
    } else {
      AtomScanned(alg, open, ts);
      if Atom(alg, ts).Parsed? {
        var rest := Atom(alg, ts).rest;
        if rest != [] && rest[0].Caret? {
          UnaryScanned(alg, open, rest[1..]);
        }
      }
    }
  }

  lemma {:induction false} AtomScanned<K(!new), N(!new)>(alg: Algebra<K, N>, open: nat, ts: seq<Token<K>>)
    requires !StartsWith(ts, Minus)
    ensures Scanned(Atom(alg, ts), open, ts)
    decreases |ts|, 0
  {
    if ts != [] && ts[0].LParen? {
      ExpressionScanned(alg, open + 1, ts[1..]);
    }
  }

  /** Unless a division by zero is reported, the outcome is what the scan finds. */
  lemma SyntaxErrorsExactly<K(!new), N(!new)>(alg: Algebra<K, N>, ts: seq<Token<K>>)
    requires ts != [] && Parse(alg, ts) != Error(DivisionByZero)
    ensures Fault(true, 0, ts) == match Parse(alg, ts) case Value(_) => None case Error(e) => Some(e)
  {
    ExpressionScanned(alg, 0, ts);
  }
}
