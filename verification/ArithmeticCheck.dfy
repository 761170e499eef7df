/**
 The check in front of the engine: which code a refused input gets, and that every printed expression within
 the limits passes it.
 */
module ArithmeticCheck {
  import opened Wrappers
  import opened ArithmeticGrammar
  import opened ArithmeticParser
  import opened ArithmeticPrint
  import opened ArithmeticLexer
  import CommandLines
  import Utf16

  /** Neither a digit, an operator, a parenthesis, a dot nor white space. */
  predicate Foreign(c: char) { c !in "0123456789+-*/^()." && !ScriptSpace(c) }

  lemma ForeignExactly(c: char)
    ensures Foreign(c) <==> !ExpressionChar(c)
  {
    if IsDigit(c) {
      assert c == "0123456789+-*/^()."[c as int - '0' as int];
    }
  }

  /** Syntax is blamed for an empty text and, in one of at most 200 units, for a character that cannot occur;
      the limit for more units and, in a text of possible characters, for some part that opens 33 parentheses
      more than it closes. */
  lemma CheckCodes(s: string)
    ensures Check(s) == Some(Syntax)
            <==> s == "" || (|Utf16.Encode(s)| <= 200 && exists c :: c in s && Foreign(c))
    ensures Check(s) == Some(Limit)
            <==> |Utf16.Encode(s)| > 200
                 || ((forall c :: c in s ==> !Foreign(c)) && !CommandLines.PartsWithin(s, 32))
  {
    forall c ensures Foreign(c) <==> !ExpressionChar(c) {
      ForeignExactly(c);
    }
    assert Utf16.Encode("") == [];
    CommandLines.NestingMeans(s, 32);
    hide Foreign, ExpressionChar, Utf16.Encode, CommandLines.PartsWithin;
    assert (exists i :: 0 <= i < |s| && !ExpressionChar(s[i])) <==> exists c :: c in s && Foreign(c);
  }

  // ----- Printed expressions -----

  /** How many parentheses are open at once, at most. */
  function ParenDepth<K>(t: Tree<K>): nat {
    match t
    case Lit(_) => 0
    case Paren(e) => 1 + ParenDepth(e)
    case Neg(e) => ParenDepth(e)
    case Pow(b, e) => Larger(ParenDepth(b), ParenDepth(e))
    case Bin(_, l, r) => Larger(ParenDepth(l), ParenDepth(r))
  }

  function Larger(a: nat, b: nat): nat { if a < b then b else a }

  function Deepened(n: Nesting, k: nat): Nesting { Nesting(n.depth, Larger(n.max, n.depth + k)) }

  lemma ScanOne<K>(n: Nesting, t: Token<K>)
    ensures ScanTokens(n, [t]) == n.Token(t)
  {
    assert [t][1..] == [];
  }

  /** Scanning a derivation comes back to the depth it began at. */
  lemma {:induction false} ScanYield<K(!new)>(n: Nesting, t: Tree<K>)
    requires n.depth <= n.max
    ensures ScanTokens(n, Yield(t)) == Deepened(n, ParenDepth(t))
    decreases t, 1
  {
    hide ScanTokens;
    match t
    case Lit(k) => ScanOne(n, Num(k));
    case Paren(e) =>
      ScanTokensSplit(n, [LParen] + Yield(e), [RParen]);
      ScanTokensSplit(n, [LParen], Yield(e));
      ScanOne<K>(n, LParen);
      ScanYield(n.Open(), e);
      ScanOne<K>(Deepened(n.Open(), ParenDepth(e)), RParen);
    case Neg(e) =>
      ScanTokensSplit(n, [Minus], Yield(e));
      ScanOne<K>(n, Minus);
      ScanYield(n, e);
    case Pow(b, e) => ScanTwo(n, t, b, Caret, e);
    case Bin(op, l, r) => ScanTwo(n, t, l, op.Symbol(), r);
  }

  lemma {:induction false} ScanTwo<K(!new)>(n: Nesting, whole: Tree<K>, l: Tree<K>, t: Token<K>, r: Tree<K>)
    requires whole == Pow(l, r) || (whole.Bin? && whole.left == l && whole.right == r)
    requires n.depth <= n.max && !t.LParen? && !t.RParen?
    ensures ScanTokens(n, Yield(l) + [t] + Yield(r)) == Deepened(n, Larger(ParenDepth(l), ParenDepth(r)))
    decreases whole, 0
  {
    hide ScanTokens;
    ScanTokensSplit(n, Yield(l) + [t], Yield(r));
    ScanTokensSplit(n, Yield(l), [t]);
    ScanYield(n, l);
    var after := Deepened(n, ParenDepth(l));
    ScanOne(after, t);
    ScanYield(after, r);
  }

  /** Spaces both languages know. */
  ghost predicate CommonBlank(gap: string) { forall i :: 0 <= i < |gap| ==> CommonSpace(gap[i]) }

  lemma {:induction false} SpellChars<K(!new)>(
    write: K -> string, read: string -> Option<K>, ts: seq<Token<K>>, gaps: seq<string>)
    requires |gaps| == |ts| + 1 && forall i :: 0 <= i < |gaps| ==> CommonBlank(gaps[i])
    requires forall i :: 0 <= i < |ts| && ts[i].Num? ==> Writes(write, read, ts[i].value)
    ensures forall c :: c in Spell(write, ts, gaps) ==> ExpressionChar(c)
    ensures ts != [] ==> Spell(write, ts, gaps) != ""
    decreases |ts|
  {
    assert forall c :: c in gaps[0] ==> ExpressionChar(c);
    if ts != [] {
      TokenChars(write, read, ts[0]);
      SpellChars(write, read, ts[1..], gaps[1..]);
      hide ExpressionChar;
    }
  }

  lemma TokenChars<K(!new)>(write: K -> string, read: string -> Option<K>, t: Token<K>)
    requires t.Num? ==> Writes(write, read, t.value)
    ensures TokenText(write, t) != "" && forall c :: c in TokenText(write, t) ==> ExpressionChar(c)
  {
  }

  /** An expression printed with any spacing passes the check exactly when it has at most 200 units and 32
      parentheses within each other, and otherwise the limit is blamed. */
  lemma PrintedPassesExactly<K(!new)>(
    write: K -> string, read: string -> Option<K>, a: Ast<K>, gaps: seq<string>)
    requires |gaps| == |Print(a)| + 1 && forall i :: 0 <= i < |gaps| ==> CommonBlank(gaps[i])
    requires forall k :: Num(k) in Print(a) ==> Writes(write, read, k)
    ensures var text := Spell(write, Print(a), gaps);
            Check(text)
            == if |Utf16.Encode(text)| <= 200 && ParenDepth(Bracket(a, EXPR)) <= 32 then None else Some(Limit)
  {
    var ts, text := Print(a), Spell(write, Print(a), gaps);
    NumbersApart(Bracket(a, EXPR));
    forall i | 0 <= i < |ts| && ts[i].Num? ensures Writes(write, read, ts[i].value) {
      assert Num(ts[i].value) in ts;
    }
    hide Bracket, Spell, Writes, Lex, Utf16.Encode, ExpressionChar, ScanChars;
    SpellChars(write, read, ts, gaps);
    assert forall i :: 0 <= i < |text| ==> text[i] in text;
    LexSpell(write, read, ts, gaps);
    LexKeepsNesting(read, Nesting(0, 0), text);
    ScanYield(Nesting(0, 0), Bracket(a, EXPR));
  }
}
