/**
 From text to tokens: the tokenizer of the Rust engine, its TypeScript twin, and the satellite's
 input check that runs in front of both.
 */
module ArithmeticLexer {
  import opened Wrappers
  import Utf16
  import opened ArithmeticGrammar
  import opened ArithmeticParser
  import opened ArithmeticPrint

  predicate IsDigit(c: char) { '0' <= c <= '9' }

  predicate NumberChar(c: char) { IsDigit(c) || c == '.' }

  /** White space common to Rust's `char::is_whitespace` and the `\s` of a JavaScript pattern. */
  predicate CommonSpace(c: char) {
    '\t' <= c <= '\r' || c == ' ' || c == '\U{A0}' || c == '\U{1680}' || '\U{2000}' <= c <= '\U{200A}'
    || c == '\U{2028}' || c == '\U{2029}' || c == '\U{202F}' || c == '\U{205F}' || c == '\U{3000}'
  }

  predicate RustSpace(c: char) { CommonSpace(c) || c == '\U{85}' }

  predicate ScriptSpace(c: char) { CommonSpace(c) || c == '\U{FEFF}' }

  /** The blanks the TypeScript tokenizer skips. */
  predicate PlainBlank(c: char) { c == ' ' || c == '\t' || c == '\n' }

  function Punctuation<K>(c: char): Option<Token<K>> {
    match c
    case '+' => Some(Plus)
    case '-' => Some(Minus)
    case '*' => Some(Star)
    case '/' => Some(Slash)
    case '^' => Some(Caret)
    case '(' => Some(LParen)
    case ')' => Some(RParen)
    case _ => None
  }

  datatype LexError = InvalidNumber | UnexpectedCharacter

  datatype Lexed<+K> = Tokens(tokens: seq<Token<K>>) | Rejected(error: LexError)

  function Prepend<K>(ts: seq<Token<K>>, r: Lexed<K>): Lexed<K> {
    match r
    case Rejected(_) => r
    case Tokens(us) => Tokens(ts + us)
  }

  /** Length of the longest prefix made of digits and dots. */
  function Run(s: string): (n: nat)
    ensures n <= |s|
  {
    if s == [] || !NumberChar(s[0]) then 0 else 1 + Run(s[1..])
  }

  function Dots(s: string): nat {
    if s == [] then 0 else (if s[0] == '.' then 1 else 0) + Dots(s[1..])
  }

  /** `read` turns a run of digits and dots into a finite number, when it is one. */
  function Lex<K>(read: string -> Option<K>, s: string): Lexed<K>
    decreases |s|
  {
    if s == [] then Tokens([])
    else if RustSpace(s[0]) then Lex(read, s[1..])
    else if Punctuation<K>(s[0]).Some? then Prepend([Punctuation(s[0]).value], Lex(read, s[1..]))
    else if NumberChar(s[0]) then
      var raw := s[..Run(s)];
      if Dots(raw) > 1 then Rejected(InvalidNumber)
      else
        match read(raw)
        case None => Rejected(InvalidNumber)
        case Some(k) => Prepend([Num(k)], Lex(read, s[Run(s)..]))
    else Rejected(UnexpectedCharacter)
  }

  lemma PrependPrepend<K>(ts: seq<Token<K>>, us: seq<Token<K>>, r: Lexed<K>)
    ensures Prepend(ts, Prepend(us, r)) == Prepend(ts + us, r)
  {
    if r.Tokens? {
      assert ts + (us + r.tokens) == (ts + us) + r.tokens;
    }
  }

  lemma PrependNothing<K>(r: Lexed<K>)
    ensures Prepend([], r) == r
  {
    if r.Tokens? {
      assert [] + r.tokens == r.tokens;
    }
  }

  lemma PrependAll<K>(ts: seq<Token<K>>)
    ensures Prepend(ts, Tokens([])) == Tokens(ts)
  {
    assert ts + [] == ts;
  }

  lemma PrependRejected<K>(ts: seq<Token<K>>)
    ensures forall e :: Prepend(ts, Rejected(e)) == Rejected(e)
  {
  }

  /** Where the run of digits and dots at `start` ends, and how many dots it has. */
  method NumberEnd(chars: string, start: nat) returns (i: nat, dots: nat)
    requires start <= |chars|
    ensures i == start + Run(chars[start..]) && i <= |chars|
    ensures start < |chars| && NumberChar(chars[start]) ==> i > start
    ensures dots == Dots(chars[start..i])
  {
    i, dots := start, 0;
    while i < |chars| && NumberChar(chars[i])
      invariant start <= i <= |chars|
      invariant Run(chars[start..]) == i - start + Run(chars[i..])
      invariant dots == Dots(chars[start..i])
    {
      assert chars[i..][1..] == chars[i + 1..];
      DotsSnoc(chars[start..i], chars[i]);
      assert chars[start..i] + [chars[i]] == chars[start..i + 1];
      if chars[i] == '.' {
        dots := dots + 1;
      }
      i := i + 1;
    }
  }

  /** The Rust tokenizer: one index over the characters, one growing list of tokens. */
  method Tokenize<K>(read: string -> Option<K>, chars: string) returns (r: Lexed<K>)
    ensures r == Lex(read, chars)
  {
    hide Run, Dots, Prepend, Punctuation;
    PrependNothing(Lex(read, chars));
    var tokens: seq<Token<K>> := [];
    var i := 0;
    while i < |chars|
      invariant i <= |chars|
      invariant Lex(read, chars) == Prepend(tokens, Lex(read, chars[i..]))
    {
      var ch := chars[i];
      assert chars[i..][0] == ch && chars[i..][1..] == chars[i + 1..];
      if RustSpace(ch) {
        i := i + 1;
        continue;
      }
      var token := Punctuation<K>(ch);
      if token.Some? {
        PrependPrepend(tokens, [token.value], Lex(read, chars[i + 1..]));
        tokens := tokens + [token.value];
        i := i + 1;
        continue;
      }
      if NumberChar(ch) {
        var start := i;
        var dots;
        i, dots := NumberEnd(chars, start);
        assert chars[start..][..i - start] == chars[start..i] && chars[start..][i - start..] == chars[i..];
        PrependRejected(tokens);
        if dots > 1 {
          return Rejected(InvalidNumber);
        }
        var value := read(chars[start..i]);
        if value.None? {
          return Rejected(InvalidNumber);
        }
        PrependPrepend(tokens, [Num(value.value)], Lex(read, chars[i..]));
        tokens := tokens + [Num(value.value)];
        continue;
      }
      PrependRejected(tokens);
      return Rejected(UnexpectedCharacter);
    }
    PrependAll(tokens);
    return Tokens(tokens);
  }

  lemma {:induction false} DotsSnoc(s: string, c: char)
    ensures Dots(s + [c]) == Dots(s) + (if c == '.' then 1 else 0)
  {
    if s == [] {
      assert [] + [c] == [c];
    } else {
      assert (s + [c])[1..] == s[1..] + [c];
      DotsSnoc(s[1..], c);
    }
  }

  // ----- The TypeScript tokenizer -----

  /** Length of the number the TypeScript tokenizer takes: it stops at a second dot. */
  function ScriptRun(s: string, sawDot: bool): (n: nat)
    ensures n <= |s|
    ensures s != [] && IsDigit(s[0]) ==> n > 0
  {
    if s != [] && (IsDigit(s[0]) || (s[0] == '.' && !sawDot)) then 1 + ScriptRun(s[1..], sawDot || s[0] == '.')
    else 0
  }

  function ScriptLex<K>(read: string -> Option<K>, s: string): Lexed<K>
    decreases |s|
  {
    if s == [] then Tokens([])
    else if PlainBlank(s[0]) then ScriptLex(read, s[1..])
    else if IsDigit(s[0]) then
      var n := ScriptRun(s, false);
      match read(s[..n])
      case None => Rejected(InvalidNumber)
      case Some(k) => Prepend([Num(k)], ScriptLex(read, s[n..]))
    else
      match Punctuation<K>(s[0])
      case None => Rejected(UnexpectedCharacter)
      case Some(t) => Prepend([t], ScriptLex(read, s[1..]))
  }

  /** Where the number at `i` ends. */
  method ScriptNumberEnd(expr: string, i: nat) returns (j: nat)
    requires i <= |expr|
    ensures j == i + ScriptRun(expr[i..], false) && j <= |expr|
  {
    j := i;
    var sawDot := false;
    while j < |expr| && (IsDigit(expr[j]) || (expr[j] == '.' && !sawDot))
      invariant i <= j <= |expr|
      invariant ScriptRun(expr[i..], false) == j - i + ScriptRun(expr[j..], sawDot)
    {
      assert expr[j..][1..] == expr[j + 1..];
      if expr[j] == '.' {
        sawDot := true;
      }
      j := j + 1;
    }
  }

  method ScriptTokenize<K>(read: string -> Option<K>, expr: string) returns (r: Lexed<K>)
    ensures r == ScriptLex(read, expr)
  {
    hide ScriptRun, Prepend, Punctuation;
    PrependNothing(ScriptLex(read, expr));
    var tokens: seq<Token<K>> := [];
    var i := 0;
    while i < |expr|
      invariant i <= |expr|
      invariant ScriptLex(read, expr) == Prepend(tokens, ScriptLex(read, expr[i..]))
    {
      var ch := expr[i];
      assert expr[i..][0] == ch && expr[i..][1..] == expr[i + 1..];
      if PlainBlank(ch) {
        i := i + 1;
        continue;
      }
      if IsDigit(ch) {
        var j := ScriptNumberEnd(expr, i);
        assert expr[i..][..j - i] == expr[i..j] && expr[i..][j - i..] == expr[j..];
        PrependRejected(tokens);
        var value := read(expr[i..j]);
        if value.None? {
          return Rejected(InvalidNumber);
        }
        PrependPrepend(tokens, [Num(value.value)], ScriptLex(read, expr[j..]));
        tokens := tokens + [Num(value.value)];
        i := j;
        continue;
      }
      var token := Punctuation<K>(ch);
      if token.None? {
        PrependRejected(tokens);
        return Rejected(UnexpectedCharacter);
      }
      PrependPrepend(tokens, [token.value], ScriptLex(read, expr[i + 1..]));
      tokens := tokens + [token.value];
      i := i + 1;
    }
    PrependAll(tokens);
    return Tokens(tokens);
  }

  // ----- Where the two tokenizers agree -----

  /** Every dot follows a digit, and white space is limited to blank, tab and line feed. */
  ghost predicate Portable(s: string) {
    forall i :: 0 <= i < |s| ==> PortableAt(s, i)
  }

  ghost predicate PortableAt(s: string, i: nat)
    requires i < |s|
  {
    (s[i] == '.' ==> i > 0 && IsDigit(s[i - 1])) && (RustSpace(s[i]) ==> PlainBlank(s[i]))
  }

  lemma {:induction false} RunsAgree(s: string, sawDot: bool)
    ensures ScriptRun(s, sawDot) <= Run(s)
    ensures Dots(s[..Run(s)]) + (if sawDot then 1 else 0) <= 1 ==> ScriptRun(s, sawDot) == Run(s)
    ensures Dots(s[..Run(s)]) + (if sawDot then 1 else 0) > 1 && Dots(s[..Run(s)]) > 0
            ==> ScriptRun(s, sawDot) < |s| && s[ScriptRun(s, sawDot)] == '.'
  {
    if s != [] && NumberChar(s[0]) {
      assert s[..Run(s)][1..] == s[1..][..Run(s[1..])];
      RunsAgree(s[1..], sawDot || s[0] == '.');
    }
  }

  lemma {:induction false} RunStops(s: string)
    ensures forall i :: 0 <= i < Run(s) ==> NumberChar(s[i])
    ensures Run(s) < |s| ==> !NumberChar(s[Run(s)])
  {
    if s != [] && NumberChar(s[0]) {
      RunStops(s[1..]);
      forall i | 0 <= i < Run(s) ensures NumberChar(s[i]) {
        if i > 0 {
          assert s[i] == s[1..][i - 1];
        }
      }
    }
  }

  /** Of two dots, neither is the only one. */
  lemma {:induction false} TwoDots(s: string, i: nat, j: nat)
    requires i < j < |s| && s[i] == '.' && s[j] == '.'
    ensures Dots(s) >= 2
  {
    if i == 0 {
      OneDot(s[1..], j - 1);
    } else {
      TwoDots(s[1..], i - 1, j - 1);
    }
  }

  lemma {:induction false} OneDot(s: string, j: nat)
    requires j < |s| && s[j] == '.'
    ensures Dots(s) >= 1
  {
    if j > 0 {
      OneDot(s[1..], j - 1);
    }
  }

  lemma PortableAfterNumber(s: string)
    requires s != [] && IsDigit(s[0]) && Dots(s[..Run(s)]) <= 1
    ensures Portable(s) <==> Portable(s[Run(s)..])
  {
    var n := Run(s);
    RunStops(s);
    forall i | 0 <= i < n ensures PortableAt(s, i) {
      if s[i] == '.' && s[i - 1] == '.' {
        TwoDots(s[..n], i - 1, i);
      }
    }
    forall i | n <= i < |s| ensures PortableAt(s, i) <==> PortableAt(s[n..], i - n) {
      assert i > n ==> s[n..][i - n - 1] == s[i - 1];
    }
    forall i | 0 <= i < |s[n..]| && Portable(s) ensures PortableAt(s[n..], i) {
      assert PortableAt(s, n + i);
    }
  }

  lemma PortableAfterOther(s: string)
    requires s != [] && !NumberChar(s[0])
    ensures Portable(s) <==> Portable(s[1..]) && (RustSpace(s[0]) ==> PlainBlank(s[0]))
  {
    forall i | 1 <= i < |s| ensures PortableAt(s, i) <==> PortableAt(s[1..], i - 1) {
      assert i > 1 ==> s[1..][i - 2] == s[i - 1];
    }
    forall i | 0 <= i < |s[1..]| && Portable(s) ensures PortableAt(s[1..], i) {
      assert PortableAt(s, 1 + i);
    }
    assert PortableAt(s, 0) <==> (RustSpace(s[0]) ==> PlainBlank(s[0]));
  }

  /** The TypeScript tokenizer accepts exactly the portable texts the Rust one accepts, and then both
      give the same tokens. */
  lemma {:induction false} TokenizersAgree<K(!new)>(read: string -> Option<K>, s: string)
    ensures ScriptLex(read, s).Tokens? <==> Lex(read, s).Tokens? && Portable(s)
    ensures ScriptLex(read, s).Tokens? ==> ScriptLex(read, s) == Lex(read, s)
    decreases |s|
  {
    if s == [] {
    } else if IsDigit(s[0]) {
      RunsAgree(s, false);
      var n := Run(s);
      if Dots(s[..n]) <= 1 {
        PortableAfterNumber(s);
        TokenizersAgree(read, s[n..]);
      } else {
        assert s[ScriptRun(s, false)..][0] == '.';
      }
    } else if s[0] == '.' {
      assert !PortableAt(s, 0);
    } else {
      PortableAfterOther(s);
      TokenizersAgree(read, s[1..]);
    }
  }

  // ----- Text written from tokens is read back -----

  function TokenText<K>(write: K -> string, t: Token<K>): string {
    match t
    case Num(k) => write(k)
    case Plus => "+"
    case Minus => "-"
    case Star => "*"
    case Slash => "/"
    case Caret => "^"
    case LParen => "("
    case RParen => ")"
  }

  /** The tokens in order, with `gaps[i]` before the i-th and the last gap at the end. */
  function Spell<K>(write: K -> string, ts: seq<Token<K>>, gaps: seq<string>): string
    requires |gaps| == |ts| + 1
  {
    gaps[0] + if ts == [] then "" else TokenText(write, ts[0]) + Spell(write, ts[1..], gaps[1..])
  }

  /** `write` spells a number as digits with at most one dot that `read` understands. */
  ghost predicate Writes<K>(write: K -> string, read: string -> Option<K>, k: K) {
    var raw := write(k);
    raw != [] && (forall i :: 0 <= i < |raw| ==> NumberChar(raw[i])) && Dots(raw) <= 1 && read(raw) == Some(k)
  }

  ghost predicate Blank(gap: string) {
    forall i :: 0 <= i < |gap| ==> RustSpace(gap[i])
  }

  ghost predicate Spaced<K(!new)>(ts: seq<Token<K>>, gaps: seq<string>) {
    |gaps| == |ts| + 1 && (forall i :: 0 <= i < |gaps| ==> Blank(gaps[i])) &&
    forall i :: 0 < i < |ts| && ts[i - 1].Num? && ts[i].Num? ==> gaps[i] != ""
  }

  lemma {:induction false} LexBlank<K>(read: string -> Option<K>, gap: string, s: string)
    requires Blank(gap)
    ensures Lex(read, gap + s) == Lex(read, s)
  {
    if gap == [] {
      assert gap + s == s;
    } else {
      assert (gap + s)[1..] == gap[1..] + s;
      LexBlank(read, gap[1..], s);
    }
  }

  lemma {:induction false} RunExact(raw: string, s: string)
    requires forall i :: 0 <= i < |raw| ==> NumberChar(raw[i])
    requires s != [] ==> !NumberChar(s[0])
    ensures Run(raw + s) == |raw|
  {
    if raw == [] {
      assert raw + s == s;
    } else {
      assert (raw + s)[1..] == raw[1..] + s;
      RunExact(raw[1..], s);
    }
  }

  /** The text of one token, put before text that does not continue it, is read as that token. */
  lemma LexToken<K(!new)>(write: K -> string, read: string -> Option<K>, t: Token<K>, tail: string)
    requires t.Num? ==> Writes(write, read, t.value) && (tail != [] ==> !NumberChar(tail[0]))
    ensures Lex(read, TokenText(write, t) + tail) == Prepend([t], Lex(read, tail))
  {
    var text := TokenText(write, t);
    var s := text + tail;
    if t.Num? {
      RunExact(text, tail);
      assert s[..|text|] == text && s[|text|..] == tail;
      assert s[0] == text[0] && NumberChar(text[0]);
    } else {
      assert s[1..] == tail;
    }
  }

  lemma SpacedTail<K(!new)>(ts: seq<Token<K>>, gaps: seq<string>)
    requires ts != [] && Spaced(ts, gaps)
    ensures Spaced(ts[1..], gaps[1..])
  {
    forall i | 0 < i < |ts[1..]| && ts[1..][i - 1].Num? && ts[1..][i].Num? ensures gaps[1..][i] != "" {
      assert ts[i].Num? && ts[i + 1].Num?;
    }
  }

  lemma {:induction false} LexSpell<K(!new)>(write: K -> string, read: string -> Option<K>, ts: seq<Token<K>>,
      gaps: seq<string>)
    requires Spaced(ts, gaps)
    requires forall i :: 0 <= i < |ts| && ts[i].Num? ==> Writes(write, read, ts[i].value)
    ensures Lex(read, Spell(write, ts, gaps)) == Tokens(ts)
    decreases |ts|
  {
    if ts == [] {
      LexBlank(read, gaps[0], "");
    } else {
      var tail := Spell(write, ts[1..], gaps[1..]);
      LexBlank(read, gaps[0], TokenText(write, ts[0]) + tail);
      if ts[0].Num? {
        TailStart(write, read, ts, gaps);
      }
      LexToken(write, read, ts[0], tail);
      SpacedTail(ts, gaps);
      LexSpell(write, read, ts[1..], gaps[1..]);
      assert [ts[0]] + ts[1..] == ts;
    }
  }

  /** What is spelled after a number never continues it. */
  lemma TailStart<K(!new)>(write: K -> string, read: string -> Option<K>, ts: seq<Token<K>>, gaps: seq<string>)
    requires ts != [] && ts[0].Num? && Spaced(ts, gaps)
    ensures var tail := Spell(write, ts[1..], gaps[1..]); tail != [] ==> !NumberChar(tail[0])
  {
    var tail := Spell(write, ts[1..], gaps[1..]);
    if gaps[1] != [] {
      assert tail[0] == gaps[1][0];
    } else if |ts| > 1 {
      assert !ts[1].Num?;
      assert ts[1..][0] == ts[1];
    }
  }

  lemma {:induction false} NumbersApart<K(!new)>(t: Tree<K>)
    ensures Yield(t) != []
    ensures forall i :: 0 < i < |Yield(t)| ==> !(Yield(t)[i - 1].Num? && Yield(t)[i].Num?)
  {
    match t
    case Lit(_) =>
    case Paren(e) => NumbersApart(e);
    case Neg(e) => NumbersApart(e);
    case Pow(b, e) => NumbersApart(b); NumbersApart(e);
    case Bin(_, l, r) => NumbersApart(l); NumbersApart(r);
  }

  // ----- The engine, from text to result -----

  datatype Answer<+K> = Answer(value: K) | NotFinite | LexFailure(lex: LexError) | ParseFailure(parse: ParseError)

  function Solve<K>(read: string -> Option<K>, arith: Arithmetic<K>, finite: K -> bool, text: string): Answer<K> {
    match Lex(read, text)
    case Rejected(e) => LexFailure(e)
    case Tokens(ts) =>
      match Parse(arith.Numbers(), ts)
      case Error(e) => ParseFailure(e)
      case Value(v) => if finite(v) then Answer(v) else NotFinite
  }

  /** An expression printed with any spacing, tokenized and parsed, yields its own value. */
  lemma SolvePrinted<K(!new)>(write: K -> string, read: string -> Option<K>, arith: Arithmetic<K>, finite: K -> bool,
                              a: Ast<K>, gaps: seq<string>)
    requires |gaps| == |Print(a)| + 1 && forall i :: 0 <= i < |gaps| ==> Blank(gaps[i])
    requires forall k :: Num(k) in Print(a) ==> Writes(write, read, k)
    ensures Solve(read, arith, finite, Spell(write, Print(a), gaps))
            == (match Meaning(arith, a)
                case None => ParseFailure(DivisionByZero)
                case Some(v) => if finite(v) then Answer(v) else NotFinite)
  {
    NumbersApart(Bracket(a, EXPR));
    forall i | 0 <= i < |Print(a)| && Print(a)[i].Num? ensures Writes(write, read, Print(a)[i].value) {
      assert Num(Print(a)[i].value) in Print(a);
    }
    LexSpell(write, read, Print(a), gaps);
    ParseUndoesPrint(arith, a);
  }

  // ----- The check in front of the engine -----

  const MAX_EXPRESSION_CHARS := 200
  const MAX_DEPTH := 32

  datatype MathCode = Syntax | Limit

  function CharStep(n: Nesting, c: char): Nesting {
    if c == '(' then n.Open() else if c == ')' then n.Close() else n
  }

  function ScanChars(n: Nesting, s: string): Nesting
    decreases |s|
  {
    if s == [] then n else ScanChars(CharStep(n, s[0]), s[1..])
  }

  predicate ExpressionChar(c: char) {
    IsDigit(c) || c == '+' || c == '-' || c == '*' || c == '/' || c == '^' || c == '(' || c == ')' || c == '.'
    || ScriptSpace(c)
  }

  ghost function Check(s: string): Option<MathCode> {
    if s == [] then Some(Syntax)
    else if |Utf16.Encode(s)| > MAX_EXPRESSION_CHARS then Some(Limit)
    else if exists i :: 0 <= i < |s| && !ExpressionChar(s[i]) then Some(Syntax)
    else if ScanChars(Nesting(0, 0), s).max > MAX_DEPTH then Some(Limit)
    else None
  }

  method CheckInput(expression: string) returns (code: Option<MathCode>)
    ensures code == Check(expression)
  {
    if |expression| == 0 {
      return Some(Syntax);
    }
    if |Utf16.Encode(expression)| > MAX_EXPRESSION_CHARS {
      return Some(Limit);
    }
    if exists i :: 0 <= i < |expression| && !ExpressionChar(expression[i]) {
      return Some(Syntax);
    }
    var depth, max := 0, 0;
    for i := 0 to |expression|
      invariant depth >= 0 && max >= 0
      invariant ScanChars(Nesting(0, 0), expression) == ScanChars(Nesting(depth, max), expression[i..])
    {
      var ch := expression[i];
      assert expression[i..][0] == ch && expression[i..][1..] == expression[i + 1..];
      if ch == '(' {
        depth := depth + 1;
        if max < depth {
          max := depth;
        }
      } else if ch == ')' {
        depth := if depth == 0 then 0 else depth - 1;
      }
    }
    return if max > MAX_DEPTH then Some(Limit) else None;
  }

  lemma {:induction false} ScanCharsFlat(n: Nesting, s: string, k: nat)
    requires k <= |s| && forall i :: 0 <= i < k ==> s[i] != '(' && s[i] != ')'
    ensures ScanChars(n, s) == ScanChars(n, s[k..])
    decreases k
  {
    if k > 0 {
      assert s[k..] == s[1..][k - 1..];
      ScanCharsFlat(n, s[1..], k - 1);
    } else {
      assert s[0..] == s;
    }
  }

  /** Tokenizing keeps every parenthesis. */
  lemma {:induction false} LexKeepsNesting<K>(read: string -> Option<K>, n: Nesting, s: string)
    requires Lex(read, s).Tokens?
    ensures ScanTokens(n, Lex(read, s).tokens) == ScanChars(n, s)
    decreases |s|
  {
    if s != [] {
      var ts := Lex(read, s).tokens;
      if RustSpace(s[0]) {
        LexKeepsNesting(read, n, s[1..]);
      } else if Punctuation<K>(s[0]).Some? {
        assert ts[1..] == Lex(read, s[1..]).tokens;
        LexKeepsNesting(read, CharStep(n, s[0]), s[1..]);
      } else {
        RunStops(s);
        assert ts[1..] == Lex(read, s[Run(s)..]).tokens;
        ScanCharsFlat(n, s, Run(s));
        LexKeepsNesting(read, n, s[Run(s)..]);
      }
    }
  }

  /** The tokens of a checked input, and any beginning of them, never have more than 32 parentheses open. */
  lemma CheckedInputNesting<K(!new)>(read: string -> Option<K>, s: string, pos: nat)
    requires Check(s) == None && Lex(read, s).Tokens? && pos <= |Lex(read, s).tokens|
    ensures Before(Lex(read, s).tokens, pos).max <= MAX_DEPTH
  {
    LexKeepsNesting(read, Nesting(0, 0), s);
    BeforeBounded(Lex(read, s).tokens, pos);
  }

  /** One run of the engine; `peak` is how many calls of the parser for a parenthesis were active at once,
      at most, whether or not parsing succeeded. */
  method SolveExpression<K(!new)>(read: string -> Option<K>, arith: Arithmetic<K>, finite: K -> bool, text: string)
      returns (r: Answer<K>, ghost peak: nat)
    ensures r == Solve(read, arith, finite, text)
    ensures Check(text) == None ==> peak <= MAX_DEPTH
    ensures peak <= ScanChars(Nesting(0, 0), text).max
  {
    peak := 0;
    var lexed := Tokenize(read, text);
    if lexed.Rejected? {
      return LexFailure(lexed.error), 0;
    }
    var parser := new Parser<K>(arith, lexed.tokens);
    var outcome := parser.ParseAll();
    peak := parser.peak;
    LexKeepsNesting(read, Nesting(0, 0), text);
    match outcome
    case Error(e) => r := ParseFailure(e);
    case Value(v) => r := if finite(v) then Answer(v) else NotFinite;
  }
}
