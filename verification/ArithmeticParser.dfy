/**
 The recursive-descent parser as it runs, moving one cursor over the tokens, and how deep its calls
 nest: each parsing method is told, in a ghost argument, how many calls of `ParseAtom` for a
 parenthesis enclose it.
 */
module ArithmeticParser {
  import opened ArithmeticGrammar

  // ----- Counting parentheses -----

  /** Unclosed parentheses so far, a stray ')' not counting below zero, and the most at any point. */
  datatype Nesting = Nesting(depth: nat, max: nat) {
    function Open(): Nesting {
      Nesting(depth + 1, if max < depth + 1 then depth + 1 else max)
    }

    function Close(): Nesting {
      Nesting(if depth == 0 then 0 else depth - 1, max)
    }

    function Token<K>(t: Token<K>): Nesting {
      if t.LParen? then Open() else if t.RParen? then Close() else this
    }
  }

  function ScanTokens<K>(n: Nesting, ts: seq<Token<K>>): Nesting
    decreases |ts|
  {
    if ts == [] then n else ScanTokens(n.Token(ts[0]), ts[1..])
  }

  lemma {:induction false} ScanTokensSplit<K>(n: Nesting, ts: seq<Token<K>>, us: seq<Token<K>>)
    ensures ScanTokens(n, ts + us) == ScanTokens(ScanTokens(n, ts), us)
    decreases |ts|
  {
    if ts == [] {
      assert ts + us == us;
    } else {
      assert (ts + us)[1..] == ts[1..] + us;
      ScanTokensSplit(n.Token(ts[0]), ts[1..], us);
    }
  }

  lemma {:induction false} ScanGrows<K>(n: Nesting, ts: seq<Token<K>>)
    ensures n.max <= ScanTokens(n, ts).max
    decreases |ts|
  {
    if ts != [] {
      ScanGrows(n.Token(ts[0]), ts[1..]);
    }
  }

  /** The scan of the tokens before `pos`. */
  function Before<K>(tokens: seq<Token<K>>, pos: nat): Nesting
    requires pos <= |tokens|
  {
    ScanTokens(Nesting(0, 0), tokens[..pos])
  }

  lemma BeforeNext<K>(tokens: seq<Token<K>>, pos: nat)
    requires pos < |tokens|
    ensures Before(tokens, pos + 1) == Before(tokens, pos).Token(tokens[pos])
  {
    assert tokens[..pos + 1] == tokens[..pos] + [tokens[pos]];
    ScanTokensSplit(Nesting(0, 0), tokens[..pos], [tokens[pos]]);
  }

  lemma BeforeBounded<K>(tokens: seq<Token<K>>, pos: nat)
    requires pos <= |tokens|
    ensures Before(tokens, pos).max <= ScanTokens(Nesting(0, 0), tokens).max
  {
    assert tokens == tokens[..pos] + tokens[pos..];
    ScanTokensSplit(Nesting(0, 0), tokens[..pos], tokens[pos..]);
    ScanGrows(Before(tokens, pos), tokens[pos..]);
  }

  // ----- The parser -----

  class Parser<K> {
    const arith: Arithmetic<K>
    const tokens: seq<Token<K>>
    var pos: nat
    /** The most calls for a parenthesis that were ever active at once. */
    ghost var peak: nat

    constructor (arith: Arithmetic<K>, tokens: seq<Token<K>>)
      ensures this.arith == arith && this.tokens == tokens && pos == 0 && peak == 0 && Valid(0)
    {
      this.arith, this.tokens, this.pos := arith, tokens, 0;
      peak := 0;
    }

    /** Inside `depth` calls for a parenthesis, `peak` counts these calls, the scan of what was consumed has
        `depth` parentheses open, and it has seen as many open as there were ever calls active. */
    ghost predicate Valid(depth: nat) reads this {
      pos <= |tokens| && depth <= peak && Before(tokens, pos).depth == depth && peak <= Before(tokens, pos).max
    }

    /** After a failure, which ends all calls, only the bound on what there was remains. */
    ghost predicate Bounded() reads this {
      pos <= |tokens| && peak <= Before(tokens, pos).max
    }

    /** The cursor stands where `s` says reading stopped, inside the same calls as at the start. */
    ghost predicate Agrees(s: Step<K, K>, r: Outcome<K>, depth: nat) reads this {
      Bounded() &&
      match s
      case Failed(e) => r == Error(e)
      case Parsed(v, rest) => r == Value(v) && tokens[pos..] == rest && Valid(depth)
    }

    function Alg(): Algebra<K, K> { arith.Numbers() }

    method Advance(ghost depth: nat)
      requires Valid(depth) && pos < |tokens| && !tokens[pos].LParen?
      requires tokens[pos].RParen? ==> depth > 0
      modifies this`pos
      ensures pos == old(pos) + 1 && tokens[pos..] == tokens[old(pos)..][1..]
      ensures Valid(if tokens[old(pos)].RParen? then depth - 1 else depth)
    {
      BeforeNext(tokens, pos);
      pos := pos + 1;
    }

    /** Past an opening parenthesis, about to parse inside one call more. */
    method Enter(ghost depth: nat)
      requires Valid(depth) && pos < |tokens| && tokens[pos].LParen?
      modifies this
      ensures pos == old(pos) + 1 && tokens[pos..] == tokens[old(pos)..][1..]
      ensures peak == (if old(peak) < depth + 1 then depth + 1 else old(peak)) && Valid(depth + 1)
    {
      BeforeNext(tokens, pos);
      pos := pos + 1;
      peak := if peak < depth + 1 then depth + 1 else peak;
    }

    method ParseAll() returns (r: Outcome<K>)
      requires Valid(0) && pos == 0
      modifies this
      ensures r == Parse(Alg(), tokens)
      ensures peak <= ScanTokens(Nesting(0, 0), tokens).max
    {
      BeforeBounded(tokens, pos);
      if |tokens| == 0 {
        return Error(EmptyExpression);
      }
      assert tokens[pos..] == tokens;
      r := ParseExpression(0);
      BeforeBounded(tokens, pos);
      if r.Value? && pos < |tokens| {
        return Error(TrailingToken);
      }
    }

    method ParseExpression(ghost depth: nat) returns (r: Outcome<K>)
      requires Valid(depth)
      modifies this
      ensures Agrees(Expression(Alg(), tokens[old(pos)..]), r, depth)
      ensures r.Value? ==> old(pos) < pos
      decreases |tokens| - pos, 4
    {
      ghost var start := pos;
      r := ParseTerm(depth);
      if r.Error? {
        return;
      }
      var value := r.value;
      while pos < |tokens|
        invariant Valid(depth) && start < pos
        invariant Expression(Alg(), tokens[start..]) == ExpressionTail(Alg(), value, tokens[pos..])
        decreases |tokens| - pos
      {
        var op := tokens[pos];
        if !(op.Plus? || op.Minus?) {
          break;
        }
        Advance(depth);
        var rhs := ParseTerm(depth);
        if rhs.Error? {
          return rhs;
        }
        value := if op.Plus? then arith.add(value, rhs.value) else arith.sub(value, rhs.value);
      }
      return Value(value);
    }

    method ParseTerm(ghost depth: nat) returns (r: Outcome<K>)
      requires Valid(depth)
      modifies this
      ensures Agrees(Term(Alg(), tokens[old(pos)..]), r, depth)
      ensures r.Value? ==> old(pos) < pos
      decreases |tokens| - pos, 3
    {
      ghost var start := pos;
      r := ParseUnary(depth);
      if r.Error? {
        return;
      }
      var value := r.value;
      while pos < |tokens|
        invariant Valid(depth) && start < pos
        invariant Term(Alg(), tokens[start..]) == TermTail(Alg(), value, tokens[pos..])
        decreases |tokens| - pos
      {
        var op := tokens[pos];
        if !(op.Star? || op.Slash?) {
          break;
        }
        Advance(depth);
        var rhs := ParseUnary(depth);
        if rhs.Error? {
          return rhs;
        }
        if op.Slash? && arith.isZero(rhs.value) {
          return Error(DivisionByZero);
        }
        value := if op.Star? then arith.mul(value, rhs.value) else arith.div(value, rhs.value);
      }
      return Value(value);
    }

    method ParseUnary(ghost depth: nat) returns (r: Outcome<K>)
      requires Valid(depth)
      modifies this
      ensures Agrees(Unary(Alg(), tokens[old(pos)..]), r, depth)
      ensures r.Value? ==> old(pos) < pos
      decreases |tokens| - pos, 2
    {
      if pos < |tokens| && tokens[pos].Minus? {
        Advance(depth);
        r := ParseUnary(depth);
        if r.Value? {
          r := Value(arith.neg(r.value));
        }
        return;
      }
      r := ParsePower(depth);
    }

    method ParsePower(ghost depth: nat) returns (r: Outcome<K>)
      requires Valid(depth)
      modifies this
      ensures Agrees(Power(Alg(), tokens[old(pos)..]), r, depth)
      ensures r.Value? ==> old(pos) < pos
      decreases |tokens| - pos, 1
    {
      r := ParseAtom(depth);
      if r.Value? && pos < |tokens| && tokens[pos].Caret? {
        Advance(depth);
        var exponent := ParseUnary(depth);
        if exponent.Error? {
          return exponent;
        }
        r := Value(arith.pow(r.value, exponent.value));
      }
    }

    method ParseAtom(ghost depth: nat) returns (r: Outcome<K>)
      requires Valid(depth)
      modifies this
      ensures Agrees(Atom(Alg(), tokens[old(pos)..]), r, depth)
      ensures r.Value? ==> old(pos) < pos
      decreases |tokens| - pos, 0
    {
      if pos >= |tokens| {
        return Error(UnexpectedEnd);
      }
      var token := tokens[pos];
      match token
      case Num(value) =>
        Advance(depth);
        r := Value(value);
      case LParen =>
        Enter(depth);
        r := ParseExpression(depth + 1);
        if r.Error? {
          return;
        }
        if pos >= |tokens| || !tokens[pos].RParen? {
          return Error(MissingRParen);
        }
        Advance(depth + 1);
      case _ =>
        r := Error(UnexpectedToken);
    }
  }
}
